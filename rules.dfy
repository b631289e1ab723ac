// What the species rules of src/engine/species.rs do to a grid: which slots
// they change, what those slots become, and which particles they conserve.
// Every lemma here is about the specification functions that the `Update*`
// methods are proved against.

// ---------------------------------------------------------------------------
// Particle census
// ---------------------------------------------------------------------------

/** The species tag of every slot, in slot order. */
function Tags(cells: seq<Cell>): (t: seq<Species>)
  ensures |t| == |cells|
  ensures forall i :: 0 <= i < |cells| ==> t[i] == cells[i].species
{
  seq(|cells|, i requires 0 <= i < |cells| => cells[i].species)
}

/** How many slots of each species a grid holds. */
function Census(cells: seq<Cell>): multiset<Species>
{
  multiset(Tags(cells))
}

/** Overwriting one slot trades its species for the new one in the census. */
lemma CensusAfterWrite(cells: seq<Cell>, i: int, c: Cell)
  requires 0 <= i < |cells|
  ensures Census(cells[i := c]) == Census(cells) - multiset{cells[i].species} + multiset{c.species}
{
  var t := Tags(cells);
  assert Tags(cells[i := c]) == t[i := c.species];
  assert t == t[..i] + [t[i]] + t[i + 1..];
  assert t[i := c.species] == t[..i] + [c.species] + t[i + 1..];
}

// ---------------------------------------------------------------------------
// Moves
// ---------------------------------------------------------------------------

/**
 * `r` is `g` with `v` moved from slot `src` to slot `dst`: the destination holds
 * `v` and the source an empty cell, both stamped, and every other slot is kept.
 */
predicate Moved(g: Grid, r: Grid, src: int, dst: int, v: Cell)
{
  SameLayout(g, r) && 0 <= src < |g.cells| && 0 <= dst < |g.cells| && src != dst &&
  r.cells[dst] == v.(clock := g.Stamp()) &&
  r.cells[src] == EmptyCell.(clock := g.Stamp()) &&
  forall k :: 0 <= k < |g.cells| && k != src && k != dst ==> r.cells[k] == g.cells[k]
}

/** The write pair every rule uses to move: `set(dx, dy, v)` then `set(0, 0, EMPTY_CELL)`. */
lemma WritePairMoves(g: Grid, x: int, y: int, dx: int, dy: int, v: Cell)
  requires g.Valid() && g.InBounds(x, y) && g.InBounds(x + dx, y + dy)
  requires -2 <= dx <= 2 && -2 <= dy <= 2 && (dx, dy) != (0, 0)
  ensures Moved(g, g.Write(x, y, dx, dy, v).Write(x, y, 0, 0, EmptyCell), g.Index(x, y), g.Index(x + dx, y + dy), v)
{
  if g.Index(x, y) == g.Index(x + dx, y + dy) {
    IndexInjective(g.width, x, y, x + dx, y + dy);
  }
}

/** A move trades the species of both slots for the moved cell's and Empty. */
lemma MovedCensus(g: Grid, r: Grid, src: int, dst: int, v: Cell)
  requires Moved(g, r, src, dst, v)
  ensures Census(r.cells) ==
          Census(g.cells) - multiset{g.cells[dst].species} + multiset{v.species}
            - multiset{g.cells[src].species} + multiset{Empty}
{
  var c1 := g.cells[dst := v.(clock := g.Stamp())];
  var c2 := c1[src := EmptyCell.(clock := g.Stamp())];
  assert r.cells == c2;
  CensusAfterWrite(g.cells, dst, v.(clock := g.Stamp()));
  CensusAfterWrite(c1, src, EmptyCell.(clock := g.Stamp()));
}

/** Moving a cell into an Empty slot keeps every species count. */
lemma MovedKeepsCensus(g: Grid, r: Grid, src: int, dst: int, v: Cell)
  requires Moved(g, r, src, dst, v)
  requires g.cells[dst].species == Empty && g.cells[src].species == v.species
  ensures Census(r.cells) == Census(g.cells)
{
  MovedCensus(g, r, src, dst, v);
}

// ---------------------------------------------------------------------------
// The mediator
// ---------------------------------------------------------------------------

/** `Api::get` is the stored cell on the grid and a Wall stamped with the generation off it. */
lemma ReadIsStoredOrWall(g: Grid, x: int, y: int, dx: int, dy: int)
  requires g.Valid()
  ensures g.InBounds(x + dx, y + dy) ==> g.Read(x, y, dx, dy) == g.Get(x + dx, y + dy)
  ensures !g.InBounds(x + dx, y + dy) ==> g.Read(x, y, dx, dy) == Cell(Wall, 0, 0, g.generation)
  ensures g.Read(x, y, dx, dy).species == Empty ==> g.InBounds(x + dx, y + dy)
{
}

// ---------------------------------------------------------------------------
// Dust and Sand
// ---------------------------------------------------------------------------

/**
 * A grain moves to the first of (dir, 1), (dir + 1, 1), (dir - 1, 1) that reads
 * Empty, and stays put when none does.
 */
lemma PowderFallsToFirstEmpty(g: Grid, x: int, y: int, cell: Cell, dir: int)
  requires g.Valid() && g.InBounds(x, y) && -1 <= dir <= 1
  ensures var r := PowderRule(g, x, y, cell, dir);
          var o := g.Index(x, y);
          (g.Read(x, y, dir, 1).species == Empty ==>
             Moved(g, r, o, g.Index(x + dir, y + 1), cell)) &&
          (g.Read(x, y, dir, 1).species != Empty && g.Read(x, y, dir + 1, 1).species == Empty ==>
             Moved(g, r, o, g.Index(x + dir + 1, y + 1), cell)) &&
          (g.Read(x, y, dir, 1).species != Empty && g.Read(x, y, dir + 1, 1).species != Empty &&
           g.Read(x, y, dir - 1, 1).species == Empty ==>
             Moved(g, r, o, g.Index(x + dir - 1, y + 1), cell)) &&
          (g.Read(x, y, dir, 1).species != Empty && g.Read(x, y, dir + 1, 1).species != Empty &&
           g.Read(x, y, dir - 1, 1).species != Empty ==>
             r == g)
{
  if g.Read(x, y, dir, 1).species == Empty {
    WritePairMoves(g, x, y, dir, 1, cell);
  } else if g.Read(x, y, dir + 1, 1).species == Empty {
    WritePairMoves(g, x, y, dir + 1, 1, cell);
  } else if g.Read(x, y, dir - 1, 1).species == Empty {
    WritePairMoves(g, x, y, dir - 1, 1, cell);
  }
}

/** Dust and Sand only move into Empty slots, so every species count is kept. */
lemma PowderKeepsCensus(g: Grid, x: int, y: int, cell: Cell, dir: int)
  requires g.Valid() && g.InBounds(x, y) && -1 <= dir <= 1
  requires g.cells[g.Index(x, y)].species == cell.species
  ensures Census(PowderRule(g, x, y, cell, dir).cells) == Census(g.cells)
{
  var r := PowderRule(g, x, y, cell, dir);
  var o := g.Index(x, y);
  PowderFallsToFirstEmpty(g, x, y, cell, dir);
  if g.Read(x, y, dir, 1).species == Empty {
    MovedKeepsCensus(g, r, o, g.Index(x + dir, y + 1), cell);
  } else if g.Read(x, y, dir + 1, 1).species == Empty {
    MovedKeepsCensus(g, r, o, g.Index(x + dir + 1, y + 1), cell);
  } else if g.Read(x, y, dir - 1, 1).species == Empty {
    MovedKeepsCensus(g, r, o, g.Index(x + dir - 1, y + 1), cell);
  }
}

// ---------------------------------------------------------------------------
// Water
// ---------------------------------------------------------------------------

/**
 * With no Sand above, water falls like powder and, only when all three slots
 * below are occupied, spreads right, then left.
 */
lemma WaterFlowsWithoutSandAbove(g: Grid, x: int, y: int, cell: Cell, dir: int)
  requires g.Valid() && g.InBounds(x, y) && -1 <= dir <= 1
  requires g.Read(x, y, 0, -1).species != Sand
  ensures var r := WaterRule(g, x, y, cell, dir);
          var o := g.Index(x, y);
          var below := g.Read(x, y, dir, 1).species != Empty && g.Read(x, y, dir + 1, 1).species != Empty &&
                       g.Read(x, y, dir - 1, 1).species != Empty;
          (!below ==> r == PowderRule(g, x, y, cell, dir)) &&
          (below && g.Read(x, y, 1, 0).species == Empty ==> Moved(g, r, o, g.Index(x + 1, y), cell)) &&
          (below && g.Read(x, y, 1, 0).species != Empty && g.Read(x, y, -1, 0).species == Empty ==>
             Moved(g, r, o, g.Index(x - 1, y), cell)) &&
          (below && g.Read(x, y, 1, 0).species != Empty && g.Read(x, y, -1, 0).species != Empty ==> r == g)
{
  if g.Read(x, y, dir, 1).species != Empty && g.Read(x, y, dir + 1, 1).species != Empty &&
     g.Read(x, y, dir - 1, 1).species != Empty {
    if g.Read(x, y, 1, 0).species == Empty {
      WritePairMoves(g, x, y, 1, 0, cell);
    } else if g.Read(x, y, -1, 0).species == Empty {
      WritePairMoves(g, x, y, -1, 0, cell);
    }
  }
}

/** With no Sand above, water only moves into Empty slots, so every species count is kept. */
lemma WaterKeepsCensusWithoutSandAbove(g: Grid, x: int, y: int, cell: Cell, dir: int)
  requires g.Valid() && g.InBounds(x, y) && -1 <= dir <= 1
  requires g.Read(x, y, 0, -1).species != Sand
  requires g.cells[g.Index(x, y)].species == cell.species
  ensures Census(WaterRule(g, x, y, cell, dir).cells) == Census(g.cells)
{
  var r := WaterRule(g, x, y, cell, dir);
  var o := g.Index(x, y);
  WaterFlowsWithoutSandAbove(g, x, y, cell, dir);
  if g.Read(x, y, dir, 1).species != Empty && g.Read(x, y, dir + 1, 1).species != Empty &&
     g.Read(x, y, dir - 1, 1).species != Empty {
    if g.Read(x, y, 1, 0).species == Empty {
      MovedKeepsCensus(g, r, o, g.Index(x + 1, y), cell);
    } else if g.Read(x, y, -1, 0).species == Empty {
      MovedKeepsCensus(g, r, o, g.Index(x - 1, y), cell);
    }
  } else {
    PowderKeepsCensus(g, x, y, cell, dir);
  }
}

/**
 * The lift alone: the water goes up into the Sand's slot and a fresh Sand cell
 * takes its place, which keeps every species count.
 */
lemma WaterLiftSwapsWithSand(g: Grid, x: int, y: int, cell: Cell)
  requires g.Valid() && g.InBounds(x, y) && g.Read(x, y, 0, -1).species == Sand
  requires g.cells[g.Index(x, y)].species == cell.species
  ensures var h := WaterLift(g, x, y, cell, g.Read(x, y, 0, -1));
          var o := g.Index(x, y);
          var up := g.Index(x, y - 1);
          SameLayout(g, h) && up != o &&
          h.cells[up] == cell.(clock := g.Stamp()) &&
          h.cells[o] == Cell(Sand, 0, 0, g.Stamp()) &&
          (forall k :: 0 <= k < |g.cells| && k != o && k != up ==> h.cells[k] == g.cells[k]) &&
          Census(h.cells) == Census(g.cells)
{
  var o := g.Index(x, y);
  var up := g.Index(x, y - 1);
  if o == up {
    IndexInjective(g.width, x, y, x, y - 1);
  }
  var c1 := g.cells[up := cell.(clock := g.Stamp())];
  assert WaterLift(g, x, y, cell, g.Read(x, y, 0, -1)).cells == c1[o := Cell(Sand, 0, 0, g.Stamp())];
  CensusAfterWrite(g.cells, up, cell.(clock := g.Stamp()));
  CensusAfterWrite(c1, o, Cell(Sand, 0, 0, g.Stamp()));
}

/** Water under Sand with nowhere to flow trades places with the Sand, keeping every species count. */
lemma WaterSwapsWithSandAbove(g: Grid, x: int, y: int, cell: Cell, dir: int)
  requires g.Valid() && g.InBounds(x, y) && -1 <= dir <= 1
  requires g.Read(x, y, 0, -1).species == Sand
  requires g.Read(x, y, dir, 1).species != Empty && g.Read(x, y, dir + 1, 1).species != Empty
  requires g.Read(x, y, dir - 1, 1).species != Empty
  requires g.Read(x, y, 1, 0).species != Empty && g.Read(x, y, -1, 0).species != Empty
  requires g.cells[g.Index(x, y)].species == cell.species
  ensures var r := WaterRule(g, x, y, cell, dir);
          r.cells[g.Index(x, y - 1)] == cell.(clock := g.Stamp()) &&
          r.cells[g.Index(x, y)] == Cell(Sand, 0, 0, g.Stamp()) &&
          (forall k :: 0 <= k < |g.cells| && k != g.Index(x, y) && k != g.Index(x, y - 1) ==> r.cells[k] == g.cells[k]) &&
          Census(r.cells) == Census(g.cells)
{
  WaterLiftSwapsWithSand(g, x, y, cell);
}

/**
 * Where `update_water` sends the water, judged on the neighbours read before any
 * write: the first of (dir, 1), (dir + 1, 1), (dir - 1, 1), (1, 0), (-1, 0) that
 * read Empty.
 */
predicate WaterMovesTo(g: Grid, x: int, y: int, dir: int, dx: int, dy: int)
  requires g.Valid()
{
  var nb := g.Read(x, y, dir, 1).species == Empty;
  var nbr := g.Read(x, y, dir + 1, 1).species == Empty;
  var nbl := g.Read(x, y, dir - 1, 1).species == Empty;
  var nr := g.Read(x, y, 1, 0).species == Empty;
  var nl := g.Read(x, y, -1, 0).species == Empty;
  ((dx, dy) == (dir, 1) && nb) ||
  ((dx, dy) == (dir + 1, 1) && !nb && nbr) ||
  ((dx, dy) == (dir - 1, 1) && !nb && !nbr && nbl) ||
  ((dx, dy) == (1, 0) && !nb && !nbr && !nbl && nr) ||
  ((dx, dy) == (-1, 0) && !nb && !nbr && !nbl && !nr && nl)
}

/** Water that moves, moves with the write pair into the target `WaterMovesTo` picks. */
lemma WaterMoveIsWritePair(g: Grid, x: int, y: int, cell: Cell, dir: int, dx: int, dy: int)
  requires g.Valid() && -1 <= dir <= 1 && WaterMovesTo(g, x, y, dir, dx, dy)
  ensures -2 <= dx <= 2 && -2 <= dy <= 2
  ensures var h := WaterLift(g, x, y, cell, g.Read(x, y, 0, -1));
          WaterRule(g, x, y, cell, dir) == h.Write(x, y, dx, dy, cell).Write(x, y, 0, 0, EmptyCell)
{
  var nb := g.Read(x, y, dir, 1).species == Empty;
  var nbr := g.Read(x, y, dir + 1, 1).species == Empty;
  var nbl := g.Read(x, y, dir - 1, 1).species == Empty;
  if nb {
    assert (dx, dy) == (dir, 1);
  } else if nbr {
    assert (dx, dy) == (dir + 1, 1);
  } else if nbl {
    assert (dx, dy) == (dir - 1, 1);
  } else if g.Read(x, y, 1, 0).species == Empty {
    assert (dx, dy) == (1, 0);
  } else {
    assert (dx, dy) == (-1, 0);
  }
}

/** The lift over Sand followed by a move of the water to slot `dst`: what it does to the grid. */
lemma LiftThenMove(g: Grid, x: int, y: int, cell: Cell, dst: int, r: Grid)
  requires g.Valid() && g.InBounds(x, y) && g.Read(x, y, 0, -1).species == Sand
  requires g.cells[g.Index(x, y)].species == cell.species
  requires 0 <= dst < |g.cells| && g.cells[dst].species == Empty
  requires Moved(WaterLift(g, x, y, cell, g.Read(x, y, 0, -1)), r, g.Index(x, y), dst, cell)
  ensures var o, up := g.Index(x, y), g.Index(x, y - 1);
          r.cells[up] == cell.(clock := g.Stamp()) &&
          r.cells[dst] == cell.(clock := g.Stamp()) &&
          r.cells[o] == EmptyCell.(clock := g.Stamp()) &&
          (forall k :: 0 <= k < |g.cells| && k != o && k != up && k != dst ==> r.cells[k] == g.cells[k]) &&
          Census(r.cells) == Census(g.cells) - multiset{Sand} + multiset{cell.species}
{
  var o := g.Index(x, y);
  var h := WaterLift(g, x, y, cell, g.Read(x, y, 0, -1));
  WaterLiftSwapsWithSand(g, x, y, cell);
  assert h.cells[dst] == g.cells[dst];
  MovedCensus(h, r, o, dst, cell);
}

/**
 * Water that lifts over Sand and then still moves, judged on the neighbours read
 * before the lift, writes itself twice and overwrites the fresh Sand with an
 * empty cell: one Sand particle is lost and one water particle appears.
 */
lemma WaterLiftThenMoveLosesSand(g: Grid, x: int, y: int, cell: Cell, dir: int, dx: int, dy: int)
  requires g.Valid() && g.InBounds(x, y) && -1 <= dir <= 1
  requires g.Read(x, y, 0, -1).species == Sand && WaterMovesTo(g, x, y, dir, dx, dy)
  requires g.cells[g.Index(x, y)].species == cell.species
  ensures g.InBounds(x + dx, y + dy)
  ensures var r := WaterRule(g, x, y, cell, dir);
          var o, up, dst := g.Index(x, y), g.Index(x, y - 1), g.Index(x + dx, y + dy);
          r.cells[up] == cell.(clock := g.Stamp()) &&
          r.cells[dst] == cell.(clock := g.Stamp()) &&
          r.cells[o] == EmptyCell.(clock := g.Stamp()) &&
          (forall k :: 0 <= k < |g.cells| && k != o && k != up && k != dst ==> r.cells[k] == g.cells[k]) &&
          Census(r.cells) == Census(g.cells) - multiset{Sand} + multiset{cell.species}
{
  var up, dst := g.Index(x, y - 1), g.Index(x + dx, y + dy);
  WaterMoveIsWritePair(g, x, y, cell, dir, dx, dy);
  assert g.Read(x, y, dx, dy).species == Empty;
  if dst == up {
    IndexInjective(g.width, x + dx, y + dy, x, y - 1);
  }
  var h := WaterLift(g, x, y, cell, g.Read(x, y, 0, -1));
  WritePairMoves(h, x, y, dx, dy, cell);
  LiftThenMove(g, x, y, cell, dst, WaterRule(g, x, y, cell, dir));
}

// ---------------------------------------------------------------------------
// Fire
// ---------------------------------------------------------------------------

/**
 * One fire update touches at most the origin and the sampled neighbour:
 * the neighbour catches fire when it read Empty, Gas or Dust; the origin turns
 * to Smoke when its fuel is below 5 or the neighbour is Water, and otherwise
 * burns on in place with its fuel lowered by 2 + dir.
 */
lemma FireOutcome(g: Grid, x: int, y: int, cell: Cell, dir: int, vx: int, vy: int)
  requires g.Valid() && g.InBounds(x, y) && Roll(dir, vx, vy).Valid()
  ensures var r := FireRule(g, x, y, cell, dir, vx, vy);
          var n := g.Read(x, y, vx, vy);
          var o := g.Index(x, y);
          var s := g.Stamp();
          r.cells[o] == (if cell.ra < 5 || n.species == Water then Cell(Smoke, 0, 0, s)
                         else cell.(ra := WrappingSub(cell.ra, (2 + dir) as Byte), clock := s)) &&
          (g.InBounds(x + vx, y + vy) ==>
             r.cells[g.Index(x + vx, y + vy)] ==
               (if n.species == Empty then Cell(Fire, 0, 0, s)
                else if n.species == Gas || n.species == Dust then Cell(Fire, IgnitionFuel(vx, vy), 0, s)
                else n)) &&
          forall k :: 0 <= k < |g.cells| && k != o && (!g.InBounds(x + vx, y + vy) || k != g.Index(x + vx, y + vy)) ==>
            r.cells[k] == g.cells[k]
{
  var o := g.Index(x, y);
  var s := g.Stamp();
  var n := g.Read(x, y, vx, vy);
  var g1 := if n.species == Empty then g.Write(x, y, vx, vy, Cell(Fire, 0, 0, 0)) else g;
  var n1 := g1.Read(x, y, vx, vy);
  var g2 := if n1.species == Gas || n1.species == Dust then g1.Write(x, y, vx, vy, Cell(Fire, IgnitionFuel(vx, vy), 0, 0)) else g1;
  var n2 := g2.Read(x, y, vx, vy);
  g.WriteThenRead(x, y, vx, vy, Cell(Fire, 0, 0, 0), 0, 0);
  g1.WriteThenRead(x, y, vx, vy, Cell(Fire, IgnitionFuel(vx, vy), 0, 0), 0, 0);
  if g.InBounds(x + vx, y + vy) {
    g.WriteThenRead(x, y, vx, vy, Cell(Fire, 0, 0, 0), vx, vy);
    g1.WriteThenRead(x, y, vx, vy, Cell(Fire, IgnitionFuel(vx, vy), 0, 0), vx, vy);
    assert n2.species == Water <==> n.species == Water;
    assert n2.species != Empty;
    if o == g.Index(x + vx, y + vy) {
      IndexInjective(g.width, x, y, x + vx, y + vy);
    }
  } else {
    assert g2 == g;
  }
}

/** The fire's origin is never emptied: the branch that would move the fire can never be taken. */
lemma FireNeverVacates(g: Grid, x: int, y: int, cell: Cell, dir: int, vx: int, vy: int)
  requires g.Valid() && g.InBounds(x, y) && Roll(dir, vx, vy).Valid() && cell.species != Empty
  ensures var r := FireRule(g, x, y, cell, dir, vx, vy);
          forall k :: 0 <= k < |r.cells| && r.cells[k].species == Empty ==> g.cells[k].species == Empty
{
  FireOutcome(g, x, y, cell, dir, vx, vy);
}

/** A fire with at least 5 fuel and no Water at the sampled neighbour keeps burning, with less fuel. */
lemma FireBurnsDown(g: Grid, x: int, y: int, cell: Cell, dir: int, vx: int, vy: int)
  requires g.Valid() && g.InBounds(x, y) && Roll(dir, vx, vy).Valid()
  requires cell.ra >= 5 && g.Read(x, y, vx, vy).species != Water
  ensures var c := FireRule(g, x, y, cell, dir, vx, vy).cells[g.Index(x, y)];
          c.species == cell.species && cell.ra as int - 3 <= c.ra as int <= cell.ra as int - 1
{
  FireOutcome(g, x, y, cell, dir, vx, vy);
}

// ---------------------------------------------------------------------------
// Smoke
// ---------------------------------------------------------------------------

/**
 * Smoke rises into an Empty (dir, -1) whatever its clock; only smoke that
 * cannot rise expires, once its clock is past 100.
 */
lemma SmokeRisesOrExpires(g: Grid, x: int, y: int, cell: Cell, dir: int)
  requires g.Valid() && g.InBounds(x, y) && -1 <= dir <= 1
  ensures var r := SmokeRule(g, x, y, cell, dir);
          var o := g.Index(x, y);
          (g.Read(x, y, dir, -1).species == Empty ==> Moved(g, r, o, g.Index(x + dir, y - 1), cell)) &&
          (g.Read(x, y, dir, -1).species != Empty && cell.clock > 100 ==>
             r.cells[o] == EmptyCell.(clock := g.Stamp()) &&
             forall k :: 0 <= k < |g.cells| && k != o ==> r.cells[k] == g.cells[k]) &&
          (g.Read(x, y, dir, -1).species != Empty && cell.clock <= 100 ==> r == g)
{
  if g.Read(x, y, dir, -1).species == Empty {
    WritePairMoves(g, x, y, dir, -1, cell);
  }
}

/** Smoke keeps every species count unless it expires, when it becomes one more Empty. */
lemma SmokeCensus(g: Grid, x: int, y: int, cell: Cell, dir: int)
  requires g.Valid() && g.InBounds(x, y) && -1 <= dir <= 1
  requires g.cells[g.Index(x, y)].species == cell.species
  ensures var r := SmokeRule(g, x, y, cell, dir);
          var expires := g.Read(x, y, dir, -1).species != Empty && cell.clock > 100;
          (!expires ==> Census(r.cells) == Census(g.cells)) &&
          (expires ==> Census(r.cells) == Census(g.cells) - multiset{cell.species} + multiset{Empty})
{
  var r := SmokeRule(g, x, y, cell, dir);
  var o := g.Index(x, y);
  SmokeRisesOrExpires(g, x, y, cell, dir);
  if g.Read(x, y, dir, -1).species == Empty {
    MovedKeepsCensus(g, r, o, g.Index(x + dir, y - 1), cell);
  } else if cell.clock > 100 {
    assert r.cells == g.cells[o := EmptyCell.(clock := g.Stamp())];
    CensusAfterWrite(g.cells, o, EmptyCell.(clock := g.Stamp()));
  }
}
