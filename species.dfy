// The per-species rule table (src/engine/species.rs).
//
// Every rule reads neighbours through the mediator and writes through it, so
// later reads see earlier writes.  Each `Update*` method does exactly that, and
// is specified by a function on `Grid` that performs the same reads and writes
// on values; the lemmas below state what those functions do.  The random
// choices of the source (`rand_dir`, `rand_vec_8`) are the fields of a `Roll`.

/** The species tags, in declaration order. */
datatype Species = Empty | Wall | Dust | Sand | Water | Gas | Oil | Fire | Smoke
{
  /** Gas and Oil reach `todo!()`: they have no update. */
  predicate Implemented()
  {
    this != Gas && this != Oil
  }

  /** `Species::update` on values: the rule of this species at origin (x, y), or the `todo!()` panic. */
  function Rule(g: Grid, x: int, y: int, cell: Cell, roll: Roll): (r: Outcome)
    requires g.Valid() && roll.Valid()
    ensures r.Panicked? <==> !Implemented()
    ensures r.Running? ==> SameLayout(g, r.grid)
    ensures this == Empty || this == Wall ==> r == Running(g)
  {
    match this
    case Empty => Running(g)
    case Wall => Running(g)
    case Dust => Running(PowderRule(g, x, y, cell, roll.dir))
    case Sand => Running(PowderRule(g, x, y, cell, roll.dir))
    case Water => Running(WaterRule(g, x, y, cell, roll.dir))
    case Gas => Panicked
    case Oil => Panicked
    case Fire => Running(FireRule(g, x, y, cell, roll.dir, roll.vx, roll.vy))
    case Smoke => Running(SmokeRule(g, x, y, cell, roll.dir))
  }

  /** `Species::update`: dispatch on the tag; Gas and Oil would reach `todo!()`. */
  method Update(cell: Cell, api: Api, roll: Roll)
    requires Implemented() && api.world.Valid() && roll.Valid()
    modifies api.world
    ensures api.world.Valid()
    ensures Running(api.world.State()) == Rule(old(api.world.State()), api.x, api.y, cell, roll)
  {
    match this
    case Empty =>
    case Wall =>
    case Dust => UpdateDust(cell, api, roll.dir);
    case Sand => UpdateSand(cell, api, roll.dir);
    case Water => UpdateWater(cell, api, roll.dir);
    case Fire => UpdateFire(cell, api, roll.dir, roll.vx, roll.vy);
    case Smoke => UpdateSmoke(cell, api, roll.dir);
  }
}

/** What an update, a sweep or a tick leaves: the new grid, or the panic of `todo!()`. */
datatype Outcome = Running(grid: Grid) | Panicked

/** The implemented rules never write a Gas or Oil cell unless handed one. */
lemma RuleKeepsImplemented(s: Species, g: Grid, x: int, y: int, cell: Cell, roll: Roll)
  requires g.Valid() && roll.Valid() && s.Implemented()
  requires AllImplemented(g.cells) && cell.species.Implemented()
  ensures s.Rule(g, x, y, cell, roll).Running?
  ensures AllImplemented(s.Rule(g, x, y, cell, roll).grid.cells)
{
  match s
  case Empty =>
  case Wall =>
  case Dust => PowderKeepsImplemented(g, x, y, cell, roll.dir);
  case Sand => PowderKeepsImplemented(g, x, y, cell, roll.dir);
  case Water => WaterKeepsImplemented(g, x, y, cell, roll.dir);
  case Fire => FireKeepsImplemented(g, x, y, cell, roll.dir, roll.vx, roll.vy);
  case Smoke => SmokeKeepsImplemented(g, x, y, cell, roll.dir);
}

/**
 * The random choices one update may consume: `dir` stands for `rand_dir` (one of
 * -1, 0, 1) and (vx, vy) for `rand_vec_8` (one of the eight neighbour offsets).
 */
datatype Roll = Roll(dir: int, vx: int, vy: int)
{
  predicate Valid()
  {
    -1 <= dir <= 1 && -1 <= vx <= 1 && -1 <= vy <= 1 && (vx != 0 || vy != 0)
  }
}

/** One valid roll per slot of a grid of `n` slots. */
predicate RollsFit(rolls: seq<Roll>, n: nat)
{
  |rolls| == n && forall i :: 0 <= i < |rolls| ==> rolls[i].Valid()
}

// ---------------------------------------------------------------------------
// Specification functions: the rules on values
// ---------------------------------------------------------------------------

/**
 * The fall shared by powder and water, decided on neighbours read beforehand:
 * into (dir, 1) if `nb` was Empty, else (dir + 1, 1) if `nbr` was, else
 * (dir - 1, 1) if `nbl` was, else nowhere.
 */
function Fall(h: Grid, x: int, y: int, cell: Cell, dir: int, nb: Cell, nbr: Cell, nbl: Cell): (r: Grid)
  requires h.Valid() && -1 <= dir <= 1
  ensures SameLayout(h, r)
{
  if nb.species == Empty then h.Write(x, y, dir, 1, cell).Write(x, y, 0, 0, EmptyCell)
  else if nbr.species == Empty then h.Write(x, y, dir + 1, 1, cell).Write(x, y, 0, 0, EmptyCell)
  else if nbl.species == Empty then h.Write(x, y, dir - 1, 1, cell).Write(x, y, 0, 0, EmptyCell)
  else h
}

/** `update_dust` / `update_sand`: try (dir, 1), then (dir + 1, 1), then (dir - 1, 1). */
function PowderRule(g: Grid, x: int, y: int, cell: Cell, dir: int): (r: Grid)
  requires g.Valid() && -1 <= dir <= 1
  ensures SameLayout(g, r)
{
  Fall(g, x, y, cell, dir, g.Read(x, y, dir, 1), g.Read(x, y, dir + 1, 1), g.Read(x, y, dir - 1, 1))
}

/** The lift step of `update_water`: water goes up and fresh Sand comes down when `nt` was Sand. */
function WaterLift(g: Grid, x: int, y: int, cell: Cell, nt: Cell): (r: Grid)
  requires g.Valid()
  ensures SameLayout(g, r)
{
  if nt.species == Sand then g.Write(x, y, 0, -1, cell).Write(x, y, 0, 0, Cell(Sand, 0, 0, 0)) else g
}

/**
 * The flow step of `update_water`, decided on the neighbours read before the lift:
 * below, below-right, below-left as powder does, and only when all three were
 * occupied, right then left.
 */
function WaterFlow(h: Grid, x: int, y: int, cell: Cell, dir: int, nb: Cell, nbr: Cell, nbl: Cell, nr: Cell, nl: Cell): (r: Grid)
  requires h.Valid() && -1 <= dir <= 1
  ensures SameLayout(h, r)
{
  if nb.species == Empty || nbr.species == Empty || nbl.species == Empty then Fall(h, x, y, cell, dir, nb, nbr, nbl)
  else if nr.species == Empty then h.Write(x, y, 1, 0, cell).Write(x, y, 0, 0, EmptyCell)
  else if nl.species == Empty then h.Write(x, y, -1, 0, cell).Write(x, y, 0, 0, EmptyCell)
  else h
}

/**
 * `update_water`: read six neighbours, lift over Sand above, then flow.  Every test
 * uses the neighbours as read before any write.
 */
function WaterRule(g: Grid, x: int, y: int, cell: Cell, dir: int): (r: Grid)
  requires g.Valid() && -1 <= dir <= 1
  ensures SameLayout(g, r)
{
  var h := WaterLift(g, x, y, cell, g.Read(x, y, 0, -1));
  WaterFlow(h, x, y, cell, dir, g.Read(x, y, dir, 1), g.Read(x, y, dir + 1, 1), g.Read(x, y, dir - 1, 1),
            g.Read(x, y, 1, 0), g.Read(x, y, -1, 0))
}

/** The fire that `update_fire` ignites at neighbour offset (vx, vy). */
function IgnitionFuel(vx: int, vy: int): (fuel: Byte)
  requires -1 <= vx <= 1 && -1 <= vy <= 1
  ensures 130 <= fuel <= 170
  ensures fuel as int == 150 + (vx + vy) * 10
{
  (150 + (vx + vy) * 10) as Byte
}

/**
 * `update_fire`: spawn fire into an Empty neighbour, ignite a Gas or Dust
 * neighbour, then settle the origin.  The neighbour is re-read after each write.
 */
function FireRule(g: Grid, x: int, y: int, cell: Cell, dir: int, vx: int, vy: int): (r: Grid)
  requires g.Valid() && -1 <= dir <= 1 && -1 <= vx <= 1 && -1 <= vy <= 1
  ensures SameLayout(g, r)
{
  var degraded := cell.(ra := WrappingSub(cell.ra, (2 + dir) as Byte));
  var g1 := if g.Read(x, y, vx, vy).species == Empty then g.Write(x, y, vx, vy, Cell(Fire, 0, 0, 0)) else g;
  var n1 := g1.Read(x, y, vx, vy);
  var g2 :=
    if n1.species == Gas || n1.species == Dust then g1.Write(x, y, vx, vy, Cell(Fire, IgnitionFuel(vx, vy), 0, 0))
    else g1;
  FireSettle(g2, x, y, cell.ra, degraded, vx, vy)
}

/**
 * The last step of `update_fire`, on the grid left by the ignition writes: the
 * origin turns to Smoke when its fuel `ra` is below 5 or the neighbour reads
 * Water; otherwise the degraded fire moves into an Empty neighbour or stays.
 */
function FireSettle(h: Grid, x: int, y: int, ra: Byte, degraded: Cell, vx: int, vy: int): (r: Grid)
  requires h.Valid() && -1 <= vx <= 1 && -1 <= vy <= 1
  ensures SameLayout(h, r)
{
  var n := h.Read(x, y, vx, vy);
  if ra < 5 || n.species == Water then h.Write(x, y, 0, 0, Cell(Smoke, 0, 0, 0))
  else if n.species == Empty then h.Write(x, y, 0, 0, EmptyCell).Write(x, y, vx, vy, degraded)
  else h.Write(x, y, 0, 0, degraded)
}

/** `update_smoke`: rise into an Empty (dir, -1), and independently expire once `clock > 100`. */
function SmokeRule(g: Grid, x: int, y: int, cell: Cell, dir: int): (r: Grid)
  requires g.Valid() && -1 <= dir <= 1
  ensures SameLayout(g, r)
{
  var nu := g.Read(x, y, dir, -1);
  var h := if nu.species == Empty then g.Write(x, y, dir, -1, cell).Write(x, y, 0, 0, EmptyCell) else g;
  if cell.clock > 100 then h.Write(x, y, 0, 0, EmptyCell) else h
}

/** The move written by the rules: `v` into offset (dx, dy), then the origin emptied. */
lemma MoveKeepsImplemented(g: Grid, x: int, y: int, dx: int, dy: int, v: Cell)
  requires g.Valid() && -2 <= dx <= 2 && -2 <= dy <= 2
  requires AllImplemented(g.cells) && v.species.Implemented()
  ensures AllImplemented(g.Write(x, y, dx, dy, v).cells)
  ensures AllImplemented(g.Write(x, y, dx, dy, v).Write(x, y, 0, 0, EmptyCell).cells)
{
  g.WriteKeepsImplemented(x, y, dx, dy, v);
  g.Write(x, y, dx, dy, v).WriteKeepsImplemented(x, y, 0, 0, EmptyCell);
}

/** The powder rules bring in no Gas or Oil. */
lemma PowderKeepsImplemented(g: Grid, x: int, y: int, cell: Cell, dir: int)
  requires g.Valid() && -1 <= dir <= 1
  requires AllImplemented(g.cells) && cell.species.Implemented()
  ensures AllImplemented(PowderRule(g, x, y, cell, dir).cells)
{
  MoveKeepsImplemented(g, x, y, dir, 1, cell);
  MoveKeepsImplemented(g, x, y, dir + 1, 1, cell);
  MoveKeepsImplemented(g, x, y, dir - 1, 1, cell);
}

/** The water rule brings in no Gas or Oil. */
lemma WaterKeepsImplemented(g: Grid, x: int, y: int, cell: Cell, dir: int)
  requires g.Valid() && -1 <= dir <= 1
  requires AllImplemented(g.cells) && cell.species.Implemented()
  ensures AllImplemented(WaterRule(g, x, y, cell, dir).cells)
{
  g.WriteKeepsImplemented(x, y, 0, -1, cell);
  g.Write(x, y, 0, -1, cell).WriteKeepsImplemented(x, y, 0, 0, Cell(Sand, 0, 0, 0));
  var h := WaterLift(g, x, y, cell, g.Read(x, y, 0, -1));
  MoveKeepsImplemented(h, x, y, dir, 1, cell);
  MoveKeepsImplemented(h, x, y, dir + 1, 1, cell);
  MoveKeepsImplemented(h, x, y, dir - 1, 1, cell);
  MoveKeepsImplemented(h, x, y, 1, 0, cell);
  MoveKeepsImplemented(h, x, y, -1, 0, cell);
}

/** The fire rule brings in no Gas or Oil: it writes only Fire, Smoke and Empty cells. */
lemma FireKeepsImplemented(g: Grid, x: int, y: int, cell: Cell, dir: int, vx: int, vy: int)
  requires g.Valid() && -1 <= dir <= 1 && -1 <= vx <= 1 && -1 <= vy <= 1
  requires AllImplemented(g.cells) && cell.species.Implemented()
  ensures AllImplemented(FireRule(g, x, y, cell, dir, vx, vy).cells)
{
  var degraded := cell.(ra := WrappingSub(cell.ra, (2 + dir) as Byte));
  g.WriteKeepsImplemented(x, y, vx, vy, Cell(Fire, 0, 0, 0));
  var g1 := if g.Read(x, y, vx, vy).species == Empty then g.Write(x, y, vx, vy, Cell(Fire, 0, 0, 0)) else g;
  g1.WriteKeepsImplemented(x, y, vx, vy, Cell(Fire, IgnitionFuel(vx, vy), 0, 0));
  var n1 := g1.Read(x, y, vx, vy);
  var g2 :=
    if n1.species == Gas || n1.species == Dust then g1.Write(x, y, vx, vy, Cell(Fire, IgnitionFuel(vx, vy), 0, 0))
    else g1;
  g2.WriteKeepsImplemented(x, y, 0, 0, Cell(Smoke, 0, 0, 0));
  g2.WriteKeepsImplemented(x, y, 0, 0, EmptyCell);
  g2.Write(x, y, 0, 0, EmptyCell).WriteKeepsImplemented(x, y, vx, vy, degraded);
  g2.WriteKeepsImplemented(x, y, 0, 0, degraded);
}

/** The smoke rule brings in no Gas or Oil. */
lemma SmokeKeepsImplemented(g: Grid, x: int, y: int, cell: Cell, dir: int)
  requires g.Valid() && -1 <= dir <= 1
  requires AllImplemented(g.cells) && cell.species.Implemented()
  ensures AllImplemented(SmokeRule(g, x, y, cell, dir).cells)
{
  MoveKeepsImplemented(g, x, y, dir, -1, cell);
  var nu := g.Read(x, y, dir, -1);
  var h := if nu.species == Empty then g.Write(x, y, dir, -1, cell).Write(x, y, 0, 0, EmptyCell) else g;
  h.WriteKeepsImplemented(x, y, 0, 0, EmptyCell);
}

// ---------------------------------------------------------------------------
// The rules as the engine runs them, through the mediator
// ---------------------------------------------------------------------------

method UpdateDust(cell: Cell, api: Api, dir: int)
  requires api.world.Valid() && -1 <= dir <= 1
  modifies api.world
  ensures api.world.State() == PowderRule(old(api.world.State()), api.x, api.y, cell, dir)
{
  var nb := api.Get(dir, 1);
  var nbr := api.Get(dir + 1, 1);
  var nbl := api.Get(dir - 1, 1);
  if nb.species == Empty {
    api.Set(dir, 1, cell);
    api.Set(0, 0, EmptyCell);
  } else if nbr.species == Empty {
    api.Set(dir + 1, 1, cell);
    api.Set(0, 0, EmptyCell);
  } else if nbl.species == Empty {
    api.Set(dir - 1, 1, cell);
    api.Set(0, 0, EmptyCell);
  }
}

method UpdateSand(cell: Cell, api: Api, dir: int)
  requires api.world.Valid() && -1 <= dir <= 1
  modifies api.world
  ensures api.world.State() == PowderRule(old(api.world.State()), api.x, api.y, cell, dir)
{
  var nb := api.Get(dir, 1);
  var nbr := api.Get(dir + 1, 1);
  var nbl := api.Get(dir - 1, 1);
  if nb.species == Empty {
    api.Set(dir, 1, cell);
    api.Set(0, 0, EmptyCell);
  } else if nbr.species == Empty {
    api.Set(dir + 1, 1, cell);
    api.Set(0, 0, EmptyCell);
  } else if nbl.species == Empty {
    api.Set(dir - 1, 1, cell);
    api.Set(0, 0, EmptyCell);
  }
}

method UpdateWater(cell: Cell, api: Api, dir: int)
  requires api.world.Valid() && -1 <= dir <= 1
  modifies api.world
  ensures api.world.State() == WaterRule(old(api.world.State()), api.x, api.y, cell, dir)
{
  var nb := api.Get(dir, 1);
  var nbr := api.Get(dir + 1, 1);
  var nbl := api.Get(dir - 1, 1);
  var nr := api.Get(1, 0);
  var nl := api.Get(-1, 0);
  var nt := api.Get(0, -1);
  if nt.species == Sand {
    api.Set(0, -1, cell);
    api.Set(0, 0, Cell(Sand, 0, 0, 0));
  }
  FlowWater(cell, api, dir, nb, nbr, nbl, nr, nl);
}

/** The flow half of `update_water`, on the neighbours it read before the lift. */
method FlowWater(cell: Cell, api: Api, dir: int, nb: Cell, nbr: Cell, nbl: Cell, nr: Cell, nl: Cell)
  requires api.world.Valid() && -1 <= dir <= 1
  modifies api.world
  ensures api.world.State() == WaterFlow(old(api.world.State()), api.x, api.y, cell, dir, nb, nbr, nbl, nr, nl)
{
  if nb.species == Empty {
    api.Set(dir, 1, cell);
    api.Set(0, 0, EmptyCell);
  } else if nbr.species == Empty {
    api.Set(dir + 1, 1, cell);
    api.Set(0, 0, EmptyCell);
  } else if nbl.species == Empty {
    api.Set(dir - 1, 1, cell);
    api.Set(0, 0, EmptyCell);
  } else if nr.species == Empty {
    api.Set(1, 0, cell);
    api.Set(0, 0, EmptyCell);
  } else if nl.species == Empty {
    api.Set(-1, 0, cell);
    api.Set(0, 0, EmptyCell);
  }
}

method UpdateFire(cell: Cell, api: Api, dir: int, vx: int, vy: int)
  requires api.world.Valid() && -1 <= dir <= 1 && -1 <= vx <= 1 && -1 <= vy <= 1
  modifies api.world
  ensures api.world.State() == FireRule(old(api.world.State()), api.x, api.y, cell, dir, vx, vy)
{
  ghost var g := api.world.State();
  var ra := cell.ra;
  var degraded := cell;
  degraded := degraded.(ra := WrappingSub(ra, (2 + dir) as Byte));
  var nb := api.Get(vx, vy);
  if nb.species == Empty {
    api.Set(vx, vy, Cell(Fire, 0, 0, 0));
  }
  ghost var g1 := api.world.State();
  assert g1 == if g.Read(api.x, api.y, vx, vy).species == Empty then g.Write(api.x, api.y, vx, vy, Cell(Fire, 0, 0, 0)) else g;
  var n1 := api.Get(vx, vy);
  if n1.species == Gas || n1.species == Dust {
    api.Set(vx, vy, Cell(Fire, ((150 + (vx + vy) * 10) % 256) as Byte, 0, 0));
  }
  SettleFire(api, ra, degraded, vx, vy);
}

/** Lines 159-166 of `update_fire`, through the mediator. */
method SettleFire(api: Api, ra: Byte, degraded: Cell, vx: int, vy: int)
  requires api.world.Valid() && -1 <= vx <= 1 && -1 <= vy <= 1
  modifies api.world
  ensures api.world.State() == FireSettle(old(api.world.State()), api.x, api.y, ra, degraded, vx, vy)
{
  var n2 := api.Get(vx, vy);
  if ra < 5 || n2.species == Water {
    api.Set(0, 0, Cell(Smoke, 0, 0, 0));
  } else if n2.species == Empty {
    api.Set(0, 0, EmptyCell);
    api.Set(vx, vy, degraded);
  } else {
    api.Set(0, 0, degraded);
  }
}

method UpdateSmoke(cell: Cell, api: Api, dir: int)
  requires api.world.Valid() && -1 <= dir <= 1
  modifies api.world
  ensures api.world.State() == SmokeRule(old(api.world.State()), api.x, api.y, cell, dir)
{
  var nu := api.Get(dir, -1);
  if nu.species == Empty {
    api.Set(dir, -1, cell);
    api.Set(0, 0, EmptyCell);
  }
  if cell.clock > 100 {
    api.Set(0, 0, EmptyCell);
  }
}
