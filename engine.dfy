// The grid, its cells, the bounded neighbour mediator and the scheduler of the
// falling-sand engine (src/engine/mod.rs).
//
// The grid is kept twice: `World` is the object whose fields the engine updates
// in place, and `Grid` is the value of those fields at one moment.  Every method
// that changes a `World` states its new `State()` as a function of the old one;
// the functions on `Grid` are what the lemmas talk about.

/** An unsigned byte (a Rust `u8`). */
newtype Byte = x: int | 0 <= x < 256

/** `a.wrapping_add(b)` on bytes: the sum, less 256 when it does not fit. */
function WrappingAdd(a: Byte, b: Byte): (r: Byte)
{
  if a as int + b as int < 256 then a + b else (a as int + b as int - 256) as Byte
}

/** `a - b` on bytes, wrapping: the difference, plus 256 when it is negative. */
function WrappingSub(a: Byte, b: Byte): (r: Byte)
{
  if a >= b then a - b else (a as int - b as int + 256) as Byte
}

/** Wrapping addition is addition modulo 256. */
lemma WrappingAddIsModular(a: Byte, b: Byte)
  ensures WrappingAdd(a, b) as int == (a as int + b as int) % 256
{
}

/** Wrapping subtraction is subtraction modulo 256. */
lemma WrappingSubIsModular(a: Byte, b: Byte)
  ensures WrappingSub(a, b) as int == (a as int - b as int) % 256
{
}

/** One slot of the grid: a species tag, two payload bytes and the generation stamp. */
datatype Cell = Cell(species: Species, ra: Byte, rb: Byte, clock: Byte)

/** The canonical empty cell that emptiness tests compare against, field by field. */
const EmptyCell: Cell := Cell(Empty, 0, 0, 0)

/** One slot of the wind field. */
datatype Wind = Wind(dx: Byte, dy: Byte, pressure: Byte, density: Byte)

/** The wind every slot holds when a world is created. */
const ZeroWind: Wind := Wind(0, 0, 0, 0)

/** The wind byte that stands for "no airflow", and how far from it a wind must be to blow. */
const WindBias := 126
const WindThreshold := 40

/**
 * The first slot of row `y` in a row-major grid `w` slots wide. `get_index`
 * multiplies `y * width`; it is written here as repeated addition so that the
 * index facts the proofs use stay linear, away from the solver's weak
 * nonlinear arithmetic. `RowStartIsProduct` shows it is `y * w`.
 */
function RowStart(y: int, w: nat): (r: int)
  ensures y >= 0 ==> r >= 0
  decreases if y < 0 then -y else y
{
  if y == 0 then 0
  else if y > 0 then RowStart(y - 1, w) + w
  else RowStart(y + 1, w) - w
}

lemma {:induction false} RowStartIsProduct(y: int, w: nat)
  ensures RowStart(y, w) == y * w
  decreases if y < 0 then -y else y
{
  if y > 0 {
    RowStartIsProduct(y - 1, w);
    assert y * w == (y - 1) * w + w;
  } else if y < 0 {
    RowStartIsProduct(y + 1, w);
    assert y * w == (y + 1) * w - w;
  }
}

/** Later rows start at least a whole row further on. */
lemma {:induction false} RowStartGrows(y1: nat, y2: nat, w: nat)
  ensures y1 < y2 ==> RowStart(y1, w) + w <= RowStart(y2, w)
  decreases y2
{
  if y1 + 1 < y2 {
    RowStartGrows(y1, y2 - 1, w);
  }
}

/** The number of slots of a `w` by `h` grid: the start of the row past the last. */
function Area(w: nat, h: nat): nat
{
  RowStart(h, w)
}

lemma AreaIsProduct(w: nat, h: nat)
  ensures Area(w, h) == w * h
{
  RowStartIsProduct(h, w);
}

/** Row-major layout: `x + y * w` of a coordinate inside a `w` by `h` grid is a slot of it. */
lemma IndexInRange(w: nat, h: nat, x: int, y: int)
  requires 0 <= x < w && 0 <= y < h
  ensures 0 <= x + RowStart(y, w) < Area(w, h)
{
  RowStartGrows(y, h, w);
}

/** Row-major layout is injective on the coordinates inside the grid. */
lemma IndexInjective(w: nat, x1: int, y1: int, x2: int, y2: int)
  requires 0 <= x1 < w && 0 <= x2 < w && 0 <= y1 && 0 <= y2
  requires x1 + RowStart(y1, w) == x2 + RowStart(y2, w)
  ensures x1 == x2 && y1 == y2
{
  RowStartGrows(y1, y2, w);
  RowStartGrows(y2, y1, w);
}

/** The value of a world's fields: dimensions, cells, winds and the generation counter. */
datatype Grid = Grid(width: nat, height: nat, cells: seq<Cell>, winds: seq<Wind>, generation: Byte)
{
  /** Both arrays hold exactly one slot per coordinate. */
  predicate Valid()
  {
    width > 0 && height > 0 && |cells| == Area(width, height) && |winds| == Area(width, height)
  }

  predicate InBounds(x: int, y: int)
  {
    0 <= x < width && 0 <= y < height
  }

  /** `get_index`: the row-major slot of a coordinate. */
  function Index(x: int, y: int): (i: int)
    ensures x >= 0 && y >= 0 ==> i >= 0
    ensures InBounds(x, y) ==> 0 <= i < Area(width, height)
  {
    if InBounds(x, y) then IndexInRange(width, height, x, y); x + RowStart(y, width)
    else x + RowStart(y, width)
  }

  /** `get_index` is `x + y * width`, a slot of the `width * height` cells for every coordinate of the grid. */
  lemma IndexIsRowMajor(x: int, y: int)
    ensures Index(x, y) == x + y * width
    ensures InBounds(x, y) ==> 0 <= Index(x, y) < width * height
  {
    RowStartIsProduct(y, width);
    AreaIsProduct(width, height);
  }

  /** The clock value every `Api::set` stamps on the slot it writes. */
  function Stamp(): Byte
  {
    WrappingAdd(generation, 1)
  }

  /** `World::get`: the stored cell, or `EmptyCell` for a coordinate off the grid. */
  function Get(x: nat, y: nat): (c: Cell)
    requires Valid()
    ensures !InBounds(x, y) ==> c == EmptyCell
    ensures InBounds(x, y) ==> c == cells[Index(x, y)]
  {
    if x >= width || y >= height then EmptyCell else cells[Index(x, y)]
  }

  /** `get_cell`: the unchecked accessor; it only needs the slot to exist. */
  function GetCell(x: nat, y: nat): (c: Cell)
    requires Valid() && Index(x, y) < |cells|
    ensures InBounds(x, y) ==> c == Get(x, y)
  {
    cells[Index(x, y)]
  }

  /** `get_wind`: the wind of the row-major slot whose cell `GetCell` reads. */
  function GetWind(x: nat, y: nat): (w: Wind)
    requires Valid() && Index(x, y) < |winds|
    ensures Index(x, y) == x + y * width && w == winds[x + y * width]
  {
    IndexIsRowMajor(x, y);
    winds[Index(x, y)]
  }

  /** `World::set`: no range check, only the slot must exist. */
  function Set(x: nat, y: nat, c: Cell): (r: Grid)
    requires Valid() && Index(x, y) < |cells|
    ensures SameLayout(this, r)
    ensures r.cells[Index(x, y)] == c
    ensures forall i :: 0 <= i < |cells| && i != Index(x, y) ==> r.cells[i] == cells[i]
  {
    this.(cells := cells[Index(x, y) := c])
  }

  /** Reading back what `Set` stored, and nothing else in the grid moving. */
  lemma GetAfterSet(x: nat, y: nat, c: Cell, x2: nat, y2: nat)
    requires Valid() && InBounds(x, y) && InBounds(x2, y2)
    ensures Set(x, y, c).Get(x, y) == c
    ensures (x2, y2) != (x, y) ==> Set(x, y, c).Get(x2, y2) == Get(x2, y2)
  {
    if Index(x2, y2) == Index(x, y) {
      IndexInjective(width, x, y, x2, y2);
    }
  }

  /** `is_cell_free`: on the grid and equal to `EmptyCell` in every field, the clock included. */
  predicate IsCellFree(x: int, y: int): (free: bool)
    requires Valid()
    ensures free <==> InBounds(x, y) && cells[Index(x, y)] == EmptyCell
  {
    if x < 0 || x >= width || y < 0 || y >= height then false
    else Get(x, y) == EmptyCell
  }

  /** `swap`: exchange two slots. */
  function Swap(i: int, j: int): (r: Grid)
    requires Valid() && 0 <= i < |cells| && 0 <= j < |cells|
    ensures SameLayout(this, r)
    ensures r.cells[i] == cells[j] && r.cells[j] == cells[i]
    ensures forall k :: 0 <= k < |cells| && k != i && k != j ==> r.cells[k] == cells[k]
  {
    var tmp := cells[i];
    this.(cells := cells[i := cells[j]][j := tmp])
  }

  /** `swap` only rearranges: the multiset of cells is unchanged. */
  lemma SwapPermutes(i: int, j: int)
    requires Valid() && 0 <= i < |cells| && 0 <= j < |cells|
    ensures multiset(Swap(i, j).cells) == multiset(cells)
  {
    var c1 := cells[i := cells[j]];
    assert multiset(c1) == multiset(cells) - multiset{cells[i]} + multiset{cells[j]};
    assert Swap(i, j).cells == c1[j := cells[i]];
  }

  /** `clear`: every slot becomes `EmptyCell`. */
  function Cleared(): (r: Grid)
    requires Valid()
    ensures SameLayout(this, r)
    ensures forall k :: 0 <= k < |r.cells| ==> r.cells[k] == EmptyCell
  {
    this.(cells := seq(Area(width, height), _ => EmptyCell))
  }

  /** After `clear` every coordinate of the grid is free. */
  lemma ClearedIsFree(x: int, y: int)
    requires Valid() && InBounds(x, y)
    ensures Cleared().IsCellFree(x, y)
  {
    var r := Cleared();
    assert r.cells[r.Index(x, y)] == EmptyCell;
  }

  /** `Api::get` from origin (x, y): off the grid it is a Wall stamped with the current generation. */
  function Read(x: int, y: int, dx: int, dy: int): (c: Cell)
    requires Valid()
    ensures c.species == Empty ==> InBounds(x + dx, y + dy)
    ensures !InBounds(x + dx, y + dy) ==> c.species == Wall && c.clock == generation
  {
    if InBounds(x + dx, y + dy) then cells[Index(x + dx, y + dy)]
    else Cell(Wall, 0, 0, generation)
  }

  /** `Api::set` from origin (x, y): dropped off the grid, otherwise `v` stamped with `Stamp()`. */
  function Write(x: int, y: int, dx: int, dy: int, v: Cell): (r: Grid)
    requires Valid() && -2 <= dx <= 2 && -2 <= dy <= 2
    ensures SameLayout(this, r)
  {
    if !InBounds(x + dx, y + dy) then this
    else this.(cells := cells[Index(x + dx, y + dy) := v.(clock := Stamp())])
  }

  /** What `Api::set` promises: at most the one target slot changes, and it reads back stamped. */
  lemma WriteThenRead(x: int, y: int, dx: int, dy: int, v: Cell, ex: int, ey: int)
    requires Valid() && -2 <= dx <= 2 && -2 <= dy <= 2
    ensures !InBounds(x + dx, y + dy) ==> Write(x, y, dx, dy, v) == this
    ensures InBounds(x + dx, y + dy) ==> Write(x, y, dx, dy, v).Read(x, y, dx, dy) == v.(clock := Stamp())
    ensures (ex, ey) != (dx, dy) ==> Write(x, y, dx, dy, v).Read(x, y, ex, ey) == Read(x, y, ex, ey)
  {
    if InBounds(x + dx, y + dy) && InBounds(x + ex, y + ey) && Index(x + dx, y + dy) == Index(x + ex, y + ey) {
      IndexInjective(width, x + dx, y + dy, x + ex, y + ey);
    }
  }

  /** A write of an implemented species leaves every cell's species implemented. */
  lemma WriteKeepsImplemented(x: int, y: int, dx: int, dy: int, v: Cell)
    requires Valid() && -2 <= dx <= 2 && -2 <= dy <= 2
    requires AllImplemented(cells) && v.species.Implemented()
    ensures AllImplemented(Write(x, y, dx, dy, v).cells)
  {
    var r := Write(x, y, dx, dy, v);
    forall i | 0 <= i < |r.cells|
      ensures ImplementedAt(r.cells, i)
    {
      assert ImplementedAt(cells, i);
    }
  }

  /** A slot vacated through `Api::set` is not free, except when the stamp wraps to 0. */
  lemma VacatedIsNotFree(x: int, y: int, dx: int, dy: int)
    requires Valid() && -2 <= dx <= 2 && -2 <= dy <= 2 && InBounds(x + dx, y + dy)
    ensures Write(x, y, dx, dy, EmptyCell).IsCellFree(x + dx, y + dy) <==> generation == 255
  {
    var r := Write(x, y, dx, dy, EmptyCell);
    assert r.Get(x + dx, y + dy) == EmptyCell.(clock := Stamp());
  }
}

/** `r` has the same dimensions, winds and generation as `g`, and as many cells. */
predicate SameLayout(g: Grid, r: Grid)
{
  r.width == g.width && r.height == g.height && |r.cells| == |g.cells| &&
  r.winds == g.winds && r.generation == g.generation
}

/** The cell in slot i is of a species whose update is implemented. */
predicate ImplementedAt(cells: seq<Cell>, i: int)
  requires 0 <= i < |cells|
{
  cells[i].species.Implemented()
}

/** No cell is of a species whose update is left unimplemented. */
predicate AllImplemented(cells: seq<Cell>)
{
  forall i :: 0 <= i < |cells| ==> ImplementedAt(cells, i)
}

/** Rearranging cells cannot bring in a species that was absent. */
lemma PermutationKeepsImplemented(a: seq<Cell>, b: seq<Cell>)
  requires multiset(a) == multiset(b) && AllImplemented(a)
  ensures AllImplemented(b)
{
  forall i | 0 <= i < |b|
    ensures ImplementedAt(b, i)
  {
    assert b[i] in multiset(b);
    var j :| 0 <= j < |a| && a[j] == b[i];
    assert ImplementedAt(a, j);
  }
}

/** The (dx, dy) a wind blows a cell by: each component decided against the threshold. */
function BlowDirection(wind: Wind): (d: (int, int))
  ensures -1 <= d.0 <= 1 && -1 <= d.1 <= 1
  ensures d.0 == 1 <==> wind.dx as int > WindBias + WindThreshold
  ensures d.0 == -1 <==> wind.dx as int < WindBias - WindThreshold
  ensures d.1 == 1 <==> wind.dy as int > WindBias + WindThreshold
  ensures d.1 == -1 <==> wind.dy as int < WindBias - WindThreshold
{
  var wx := wind.dy as int - WindBias;
  var wy := wind.dx as int - WindBias;
  var dx := if wy > WindThreshold then 1 else if wy < -WindThreshold then -1 else 0;
  var dy := if wx > WindThreshold then 1 else if wx < -WindThreshold then -1 else 0;
  (dx, dy)
}

/** The wind of a freshly created world is not calm: it blows up and to the left. */
lemma ZeroWindBlowsUpLeft()
  ensures BlowDirection(ZeroWind) == (-1, -1)
{
}

/**
 * The staleness test of `blow_wind`: `clock - generation == 1` in wrapping byte
 * arithmetic, which holds exactly when the clock is `generation + 1`.
 */
predicate IsStale(clock: Byte, generation: Byte): (stale: bool)
  ensures stale <==> clock == WrappingAdd(generation, 1)
{
  WrappingSub(clock, generation) == 1
}

/**
 * An even clock is never stale at an even generation.  In a world built by
 * `World::new` every wind pass runs at an even generation and every clock is 0
 * or an odd sweep generation plus one, so the test never fires there.
 */
lemma EvenClockIsNeverStale(clock: Byte, generation: Byte)
  requires clock % 2 == 0 && generation % 2 == 0
  ensures !IsStale(clock, generation)
{
}

/** `blow_wind` at (x, y) for `cell` under `wind`: a swap into a free target, or nothing. */
function BlowRule(g: Grid, x: int, y: int, cell: Cell, wind: Wind): (r: Grid)
  requires g.Valid() && g.InBounds(x, y)
  ensures SameLayout(g, r)
{
  var d := BlowDirection(wind);
  if IsStale(cell.clock, g.generation) then g
  else if (d.0 != 0 || d.1 != 0) && g.IsCellFree(x + d.0, y + d.1) then
    g.Swap(g.Index(x, y), g.Index(x + d.0, y + d.1))
  else g
}

/** The wind pass changes a grid only by swapping the cell into a free slot the wind points at. */
lemma BlowMovesOnlyIntoFreeCells(g: Grid, x: int, y: int, cell: Cell, wind: Wind)
  requires g.Valid() && g.InBounds(x, y)
  ensures var r := BlowRule(g, x, y, cell, wind);
          var d := BlowDirection(wind);
          r != g ==>
            !IsStale(cell.clock, g.generation) && d != (0, 0) && g.IsCellFree(x + d.0, y + d.1) &&
            r.cells[g.Index(x + d.0, y + d.1)] == g.cells[g.Index(x, y)] &&
            r.cells[g.Index(x, y)] == EmptyCell &&
            forall k :: 0 <= k < |g.cells| && k != g.Index(x, y) && k != g.Index(x + d.0, y + d.1) ==>
              r.cells[k] == g.cells[k]
{
}

/** The wind rule only rearranges cells: their multiset is unchanged. */
lemma BlowRulePermutes(g: Grid, x: int, y: int, cell: Cell, wind: Wind)
  requires g.Valid() && g.InBounds(x, y)
  ensures multiset(BlowRule(g, x, y, cell, wind).cells) == multiset(g.cells)
{
  var d := BlowDirection(wind);
  if !IsStale(cell.clock, g.generation) && (d.0 != 0 || d.1 != 0) && g.IsCellFree(x + d.0, y + d.1) {
    var i, j := g.Index(x, y), g.Index(x + d.0, y + d.1);
    g.SwapPermutes(i, j);
    assert BlowRule(g, x, y, cell, wind) == g.Swap(i, j);
  } else {
    assert BlowRule(g, x, y, cell, wind) == g;
  }
}

/** A calm wind (within the threshold on both axes) never moves anything. */
lemma CalmWindMovesNothing(g: Grid, x: int, y: int, cell: Cell, wind: Wind)
  requires g.Valid() && g.InBounds(x, y)
  requires WindBias - WindThreshold <= wind.dx as int <= WindBias + WindThreshold
  requires WindBias - WindThreshold <= wind.dy as int <= WindBias + WindThreshold
  ensures BlowRule(g, x, y, cell, wind) == g
{
}

/** The engine's world: the grid whose slots the scheduler and the rules overwrite in place. */
class World {
  const width: nat
  const height: nat
  var cells: seq<Cell>
  var winds: seq<Wind>
  var generation: Byte

  function State(): Grid
    reads this
  {
    Grid(width, height, cells, winds, generation)
  }

  ghost predicate Valid()
    reads this
  {
    State().Valid()
  }

  /** `World::new`, with the dimensions as parameters: all cells empty, all winds zero. */
  constructor (width: nat, height: nat)
    requires width > 0 && height > 0
    ensures Valid()
    ensures this.width == width && this.height == height && generation == 0
    ensures forall k :: 0 <= k < |cells| ==> cells[k] == EmptyCell
    ensures forall k :: 0 <= k < |winds| ==> winds[k] == ZeroWind
  {
    this.width := width;
    this.height := height;
    AreaIsProduct(width, height);
    cells := seq(width * height, _ => EmptyCell);
    winds := seq(width * height, _ => ZeroWind);
    generation := 0;
  }

  /** `World::set`. */
  method Set(x: nat, y: nat, cell: Cell)
    requires Valid() && State().Index(x, y) < |cells|
    modifies this
    ensures State() == old(State()).Set(x, y, cell)
  {
    RowStartIsProduct(y, width);
    cells := cells[x + y * width := cell];
  }

  /** `World::swap`: the coordinates are cast to indices, so they must name existing slots. */
  method Swap(x1: int, y1: int, x2: int, y2: int)
    requires Valid() && 0 <= x1 && 0 <= y1 && 0 <= x2 && 0 <= y2
    requires State().Index(x1, y1) < |cells| && State().Index(x2, y2) < |cells|
    modifies this
    ensures State() == old(State()).Swap(old(State()).Index(x1, y1), old(State()).Index(x2, y2))
  {
    RowStartIsProduct(y1, width);
    RowStartIsProduct(y2, width);
    var i1 := x1 + y1 * width;
    var i2 := x2 + y2 * width;
    var tmp := cells[i1];
    cells := cells[i1 := cells[i2]];
    cells := cells[i2 := tmp];
  }

  /** `get_index`: `x + y * width`, computed the way the engine does. */
  method GetIndex(x: nat, y: nat) returns (i: nat)
    requires Valid()
    ensures i == State().Index(x, y)
    ensures x < width && y < height ==> i < |cells|
  {
    RowStartIsProduct(y, width);
    i := x + y * width;
  }

  /** `World::get`: the empty cell off the grid, the stored cell on it. */
  method Get(x: nat, y: nat) returns (c: Cell)
    requires Valid()
    ensures x >= width || y >= height ==> c == EmptyCell
    ensures x < width && y < height ==> c == cells[State().Index(x, y)]
  {
    if x >= width || y >= height {
      return EmptyCell;
    }
    var i := GetIndex(x, y);
    c := cells[i];
  }

  /** `is_cell_free`: exactly the coordinates of the grid whose cell is `EmptyCell`, clock 0 included. */
  method IsCellFree(x: int, y: int) returns (free: bool)
    requires Valid()
    ensures free <==> 0 <= x < width && 0 <= y < height && cells[State().Index(x, y)] == EmptyCell
    ensures free ==> cells[State().Index(x, y)].clock == 0
  {
    if x < 0 || x >= width || y < 0 || y >= height {
      return false;
    }
    var c := Get(x, y);
    free := c == EmptyCell;
  }

  /** `World::clear`. */
  method Clear()
    requires Valid()
    modifies this
    ensures State() == old(State()).Cleared()
  {
    AreaIsProduct(width, height);
    cells := seq(width * height, _ => EmptyCell);
  }

  /** `blow_wind` for the cell at the api's origin. */
  static method BlowWind(cell: Cell, wind: Wind, api: Api)
    requires api.world.Valid() && api.world.State().InBounds(api.x, api.y)
    modifies api.world
    ensures api.world.Valid()
    ensures api.world.State() == BlowRule(old(api.world.State()), api.x, api.y, cell, wind)
  {
    if WrappingSub(cell.clock, api.world.generation) == 1 {
      return;
    }
    var dx := 0;
    var dy := 0;
    var wx := wind.dy as int - WindBias;
    var wy := wind.dx as int - WindBias;
    if wy > WindThreshold {
      dx := 1;
    }
    if wy < -WindThreshold {
      dx := -1;
    }
    if wx > WindThreshold {
      dy := 1;
    }
    if wx < -WindThreshold {
      dy := -1;
    }
    assert (dx, dy) == BlowDirection(wind);
    if dx != 0 || dy != 0 {
      var free := api.world.IsCellFree(api.x + dx, api.y + dy);
      if free {
        api.world.Swap(api.x, api.y, api.x + dx, api.y + dy);
      }
    }
  }

  /**
   * `World::tick`: a wind pass, a generation bump, the column sweep, a second
   * bump.  The two bumps keep the generation's parity, so every tick sweeps in
   * the same direction as the one before.  It requires that the tick does not panic, that is, that its
   * sweep reaches no Gas or Oil cell (`TickRunsWithoutGasOrOil` gives one way).
   */
  method Tick(rolls: seq<Roll>) returns (ghost columns: seq<nat>)
    requires Valid() && RollsFit(rolls, |cells|) && TickRule(State(), rolls).Running?
    modifies this
    ensures Running(State()) == TickRule(old(State()), rolls)
    ensures columns == SweepOrder(width, WrappingAdd(old(generation), 1))
    ensures generation % 2 == old(generation) % 2
    ensures old(generation) % 2 == 0 ==> columns == Columns(width)
  {
    if generation % 2 == 0 {
      EvenTickSweepsLeftToRight(width, generation);
    }
    RunWindPass();
    generation := WrappingAdd(generation, 1);
    columns := RunSweep(rolls);
    generation := WrappingAdd(generation, 1);
  }

  /** The first loop nest of `tick`: `blow_wind` at every slot, column by column. */
  method RunWindPass()
    requires Valid()
    modifies this
    ensures State() == WindPass(old(State()), width)
  {
    ghost var start := State();
    for x := 0 to width
      invariant State() == WindPass(start, x)
    {
      RunWindColumn(x);
    }
  }

  /** One column of the wind pass, top to bottom. */
  method RunWindColumn(x: nat)
    requires Valid() && x < width
    modifies this
    ensures State() == WindColumn(old(State()), x, height)
  {
    ghost var start := State();
    for y := 0 to height
      invariant Grid(width, height, cells, winds, generation) == WindColumn(start, x, y)
    {
      BlowAt(x, y);
    }
  }

  /** The body of the wind loop: `blow_wind` for the cell and wind stored at (x, y). */
  method BlowAt(x: nat, y: nat)
    requires Valid() && State().InBounds(x, y)
    modifies this
    ensures Valid()
    ensures State() == BlowStep(old(State()), x, y)
  {
    var cell := State().GetCell(x, y);
    var wind := State().GetWind(x, y);
    var api := new Api(this, x, y);
    BlowWind(cell, wind, api);
  }

  /** The second loop nest of `tick`: every slot's rule, columns in the order the generation's parity picks. */
  method RunSweep(rolls: seq<Roll>) returns (ghost columns: seq<nat>)
    requires Valid() && RollsFit(rolls, |cells|) && Sweep(State(), rolls, width).Running?
    modifies this
    ensures Running(State()) == Sweep(old(State()), rolls, width)
    ensures columns == SweepOrder(width, generation)
  {
    ghost var start := State();
    columns := [];
    for x := 0 to width
      invariant generation == start.generation
      invariant Running(Grid(width, height, cells, winds, generation)) == Sweep(start, rolls, x)
      invariant |columns| == x
      invariant forall k :: 0 <= k < x ==> columns[k] == ScanColumn(width, generation, k)
    {
      SweepStep(start, rolls, x, width);
      var scanx := if generation % 2 == 0 then width - (1 + x) else x;
      assert scanx == ScanColumn(width, start.generation, x);
      columns := columns + [scanx];
      RunSweepColumn(rolls, scanx);
    }
  }

  /** One column of the sweep, top to bottom: the rule of whatever cell each slot holds when reached. */
  method RunSweepColumn(rolls: seq<Roll>, x: nat)
    requires Valid() && RollsFit(rolls, |cells|) && x < width
    requires SweepColumn(State(), rolls, x, height).Running?
    modifies this
    ensures Running(State()) == SweepColumn(old(State()), rolls, x, height)
  {
    ghost var start := State();
    for y := 0 to height
      invariant Running(Grid(width, height, cells, winds, generation)) == SweepColumn(start, rolls, x, y)
    {
      SweepColumnPrefixRuns(start, rolls, x, y + 1, height);
      UpdateAt(rolls, x, y, start);
    }
  }

  /**
   * The body of the sweep loop: the update of the cell stored at (x, y), with
   * that slot's roll, which takes a column sweep from `start` one row further.
   */
  method UpdateAt(rolls: seq<Roll>, x: nat, y: nat, ghost start: Grid)
    requires start.Valid() && RollsFit(rolls, |start.cells|) && x < start.width && y < start.height
    requires Running(State()) == SweepColumn(start, rolls, x, y)
    requires SweepColumn(start, rolls, x, y + 1).Running?
    modifies this
    ensures Running(State()) == SweepColumn(start, rolls, x, y + 1)
  {
    var i := State().Index(x, y);
    var cell := cells[i];
    var api := new Api(this, x, y);
    cell.species.Update(cell, api, rolls[i]);
  }
}

/** The mediator a rule gets: a world and the origin (x, y) every offset is relative to. */
class Api {
  const x: nat
  const y: nat
  const world: World

  constructor (world: World, x: nat, y: nat)
    ensures this.world == world && this.x == x && this.y == y
  {
    this.world := world;
    this.x := x;
    this.y := y;
  }

  /** `Api::get`: any offset is accepted; off the grid it reads a Wall stamped with the generation. */
  method Get(dx: int, dy: int) returns (c: Cell)
    requires world.Valid()
    ensures c == world.State().Read(x, y, dx, dy)
  {
    var nx := x + dx;
    var ny := y + dy;
    if nx < 0 || nx > world.width - 1 || ny < 0 || ny > world.height - 1 {
      return Cell(Wall, 0, 0, world.generation);
    }
    c := world.State().GetCell(nx, ny);
  }

  /** `Api::set`: offsets outside [-2, 2] panic; off the grid nothing happens. */
  method Set(dx: int, dy: int, v: Cell)
    requires -2 <= dx <= 2 && -2 <= dy <= 2
    requires world.Valid()
    modifies world
    ensures world.Valid()
    ensures world.State() == old(world.State()).Write(x, y, dx, dy, v)
  {
    var nx := x + dx;
    var ny := y + dy;
    if nx < 0 || nx > world.width - 1 || ny < 0 || ny > world.height - 1 {
      return;
    }
    var i := world.State().Index(nx, ny);
    world.cells := world.cells[i := v];
    world.cells := world.cells[i := world.cells[i].(clock := WrappingAdd(world.generation, 1))];
  }

  /** `rand_dir_2` given the draw from [0, 100): -1 on an even draw, 1 on an odd one. */
  static function RandDir2(draw: int): (d: int)
    requires 0 <= draw < 100
    ensures d == -1 || d == 1
    ensures d == -1 <==> draw % 2 == 0
  {
    if draw % 2 == 0 then -1 else 1
  }
}
