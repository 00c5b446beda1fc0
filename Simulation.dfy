/** The simulation state as one object: the entity grid, a nested list of
    cells that the operations update cell by cell, and the acted-set, the
    list of positions that the rules append to and the tick clears. Every
    rule method is proved to compute exactly what the corresponding
    function of Rules specifies; the invariants proved about those
    functions carry over to the object through these equalities. */
module Simulation {
  import opened Entities
  import opened Grid
  import Rules

  class Ecosystem {
    /** The entity grid, row by row: empty until the first start, 15×15
        from then on. */
    var grid: Board
    /** Positions spawned into or moved into during the current tick. */
    var acted: seq<Pos>

    /** The object invariant once started: a 15×15 grid of well-formed cells. */
    ghost predicate Valid()
      reads this
    {
      Shaped(grid) && BoardWellFormed(grid)
    }

    /** The state before the first start: no grid and no marks. */
    constructor ()
      ensures grid == [] && acted == []
    {
      grid := [];
      acted := [];
    }

    /** Overwrites one cell. */
    method Write(p: Pos, c: Cell)
      requires Shaped(grid) && InBounds(p)
      modifies this`grid
      ensures grid == Put(old(grid), p, c)
    {
      grid := grid[p.row := grid[p.row][p.col := c]];
    }

    /** The linear membership test of the acted-set. */
    method WasActed(p: Pos) returns (analyzed: bool)
      ensures analyzed <==> p in acted
    {
      analyzed := false;
      for k := 0 to |acted|
        invariant analyzed <==> p in acted[..k]
      {
        assert acted[..k + 1] == acted[..k] + [acted[k]];
        if acted[k] == p {
          analyzed := true;
        }
      }
      assert acted[..|acted|] == acted;
    }

    /** Builds the candidate-destination list: the empty in-bounds
        neighbours of p, checked down, up, right, left. */
    method CollectEmptyNeighbours(p: Pos) returns (available: seq<Pos>)
      requires Shaped(grid) && InBounds(p)
      ensures available == EmptyNeighbours(grid, p)
    {
      var i, j := p.row, p.col;
      available := [];
      if i + 1 < N && grid[i + 1][j].kind == Empty {
        available := available + [Pos(i + 1, j)];
      }
      assert available == Along(grid, p, Empty, AllDirs, Down);
      ghost var down := available;
      if i > 0 && grid[i - 1][j].kind == Empty {
        available := available + [Pos(i - 1, j)];
      }
      assert available == down + Along(grid, p, Empty, AllDirs, Up);
      ghost var up := available;
      if j + 1 < N && grid[i][j + 1].kind == Empty {
        available := available + [Pos(i, j + 1)];
      }
      assert available == up + Along(grid, p, Empty, AllDirs, Right);
      ghost var right := available;
      if j > 0 && grid[i][j - 1].kind == Empty {
        available := available + [Pos(i, j - 1)];
      }
      assert available == right + Along(grid, p, Empty, AllDirs, Left);
    }

    /** Spawns a child of kind k into a drawn empty neighbour of p, if any,
        and marks it acted. */
    method Spawn(p: Pos, k: Kind, pick: nat)
      requires Shaped(grid) && InBounds(p) && k != Empty
      modifies this
      ensures Rules.World(grid, acted) == Rules.Spawn(Rules.World(old(grid), old(acted)), p, k, pick)
    {
      var available := CollectEmptyNeighbours(p);
      if |available| > 0 {
        var q := available[pick % |available|];
        Write(q, Offspring(k, grid[q.row][q.col]));
        acted := acted + [q];
      }
    }

    /** The plant rule applied to the plant at p. */
    method PlantRule(p: Pos, d: Rules.Draws)
      requires Shaped(grid) && InBounds(p) && grid[p.row][p.col].kind == Plant
      modifies this
      ensures Rules.World(grid, acted) == Rules.PlantRule(Rules.World(old(grid), old(acted)), p, d)
    {
      var c := grid[p.row][p.col];
      if c.age == PLANT_MAXIMUM_AGE {
        Write(p, EmptyCell);
      } else {
        Write(p, c.(age := c.age + 1));
        if d.reproduce {
          Spawn(p, Plant, d.spawnPick);
        }
      }
    }

    /** One eat attempt of the animal at p towards dir. */
    method Eat(p: Pos, dir: Dir, prey: Kind, gain: int, eat: set<Dir>)
      requires Shaped(grid) && InBounds(p)
      modifies this`grid
      ensures grid == Rules.EatAt(old(grid), p, dir, prey, gain, eat)
    {
      if HasNeighbour(p, dir) {
        var q := Toward(p, dir);
        if grid[q.row][q.col].kind == prey && dir in eat {
          Write(q, EmptyCell);
          var eater := grid[p.row][p.col];
          Write(p, eater.(energy := eater.energy + gain));
        }
      }
    }

    /** The four eat attempts of the animal at p, down, up, right, left. */
    method Feed(p: Pos, prey: Kind, gain: int, eat: set<Dir>)
      requires Shaped(grid) && InBounds(p)
      modifies this`grid
      ensures grid == Rules.Feed(old(grid), p, prey, gain, eat)
    {
      Eat(p, Down, prey, gain, eat);
      Eat(p, Up, prey, gain, eat);
      Eat(p, Right, prey, gain, eat);
      Eat(p, Left, prey, gain, eat);
    }

    /** Reproduction of the animal at p. */
    method Reproduce(p: Pos, pick: nat)
      requires Shaped(grid) && InBounds(p) && IsAnimal(grid[p.row][p.col].kind)
      modifies this
      ensures Rules.World(grid, acted) == Rules.Reproduce(Rules.World(old(grid), old(acted)), p, pick)
    {
      var available := CollectEmptyNeighbours(p);
      if |available| > 0 {
        var q := available[pick % |available|];
        assert q in EmptyNeighbours(grid, p);
        var parent := grid[p.row][p.col];
        Write(q, Offspring(parent.kind, grid[q.row][q.col]));
        Write(p, parent.(energy := parent.energy - REPRODUCTION_COST));
        acted := acted + [q];
      }
    }

    /** A move of the animal at p. */
    method Move(p: Pos, pick: nat)
      requires Shaped(grid) && InBounds(p)
      modifies this
      ensures Rules.World(grid, acted) == Rules.Move(Rules.World(old(grid), old(acted)), p, pick)
    {
      var available := CollectEmptyNeighbours(p);
      if |available| > 0 {
        var q := available[pick % |available|];
        var mover := grid[p.row][p.col];
        Write(q, Cell(mover.kind, mover.energy - MOVE_COST, mover.age));
        Write(p, EmptyCell);
        acted := acted + [q];
      }
    }

    /** The herbivore or carnivore rule applied to the animal at p. */
    method AnimalRule(p: Pos, d: Rules.Draws)
      requires Shaped(grid) && InBounds(p) && IsAnimal(grid[p.row][p.col].kind)
      modifies this
      ensures Rules.World(grid, acted) == Rules.AnimalRule(Rules.World(old(grid), old(acted)), p, d)
    {
      ghost var w := Rules.World(grid, acted);
      var c := grid[p.row][p.col];
      if c.age == AgeLimit(c.kind) || c.energy <= 0 {
        Write(p, EmptyCell);
        return;
      }
      Write(p, c.(age := c.age + 1));
      Feed(p, Prey(c.kind), Gain(c.kind), Rules.Appetite(c.kind, d.eat));
      assert grid == Rules.AfterEating(w, p, d);
      if d.reproduce && grid[p.row][p.col].energy >= THRESHOLD_ENERGY_FOR_REPRODUCTION {
        Reproduce(p, d.spawnPick);
      }
      assert Rules.World(grid, acted) == Rules.AfterBreeding(w, p, d);
      if d.move {
        Move(p, d.movePick);
      }
    }

    /** The visit of cell p by the scan: skipped when marked, otherwise the
        rule of its occupant. */
    method Visit(p: Pos, d: Rules.Draws)
      requires Shaped(grid) && InBounds(p)
      modifies this
      ensures Rules.World(grid, acted) == Rules.Visit(Rules.World(old(grid), old(acted)), p, d)
    {
      var analyzed := WasActed(p);
      if !analyzed {
        var kind := grid[p.row][p.col].kind;
        if kind == Plant {
          PlantRule(p, d);
        } else if kind == Herbivore || kind == Carnivore {
          AnimalRule(p, d);
        }
      }
    }

    /** Applies one tick: visits every cell in row-major order, then clears
        the acted-set. */
    method Tick(oracle: Pos -> Rules.Draws)
      requires Valid()
      modifies this
      ensures Valid() && acted == []
      ensures Rules.World(grid, acted) == Rules.Tick(old(grid), old(acted), oracle)
    {
      ghost var start := Rules.World(grid, acted);
      for i := 0 to N
        invariant Shaped(grid)
        invariant Rules.Scan(Rules.World(grid, acted), i, 0, Rules.Step(oracle)) == Rules.Scan(start, 0, 0, Rules.Step(oracle))
      {
        ScanRow(i, oracle);
      }
      assert Rules.World(grid, acted) == Rules.Scan(start, 0, 0, Rules.Step(oracle));
      acted := [];
      assert Rules.World(grid, acted) == Rules.Tick(start.board, start.acted, oracle);
    }

    /** Visits the cells of row i from left to right. */
    method ScanRow(i: nat, oracle: Pos -> Rules.Draws)
      requires Shaped(grid) && i < N
      modifies this
      ensures Shaped(grid)
      ensures Rules.Scan(Rules.World(grid, acted), i + 1, 0, Rules.Step(oracle))
           == Rules.Scan(Rules.World(old(grid), old(acted)), i, 0, Rules.Step(oracle))
    {
      ghost var start := Rules.World(grid, acted);
      for j := 0 to N
        invariant Shaped(grid)
        invariant Rules.Scan(Rules.World(grid, acted), i, j, Rules.Step(oracle)) == Rules.Scan(start, i, 0, Rules.Step(oracle))
      {
        Visit(Pos(i, j), oracle(Pos(i, j)));
      }
    }

    /** The start request: rejects more than N*N entities and leaves the
        grid as it was; otherwise resets the grid to empty cells and places
        the requested plants, then herbivores, then carnivores, each on a
        cell that is still empty. */
    method Start(plants: nat, herbivores: nat, carnivores: nat) returns (ok: bool)
      modifies this`grid
      ensures ok <==> plants + herbivores + carnivores <= N * N
      ensures !ok ==> grid == old(grid)
      ensures ok ==> Valid()
      ensures ok ==> && Census(grid, Plant) == plants
                     && Census(grid, Herbivore) == herbivores
                     && Census(grid, Carnivore) == carnivores
                     && Census(grid, Empty) == N * N - (plants + herbivores + carnivores)
      ensures ok ==> forall p :: InBounds(p) ==> Fresh(At(grid, p))
    {
      if plants + herbivores + carnivores > N * N {
        return false;
      }
      Reset();
      Place(Plant, plants);
      assert Census(grid, Herbivore) == 0 && Census(grid, Carnivore) == 0;
      Place(Herbivore, herbivores);
      assert Census(grid, Plant) == plants && Census(grid, Carnivore) == 0;
      Place(Carnivore, carnivores);
      assert Census(grid, Plant) == plants && Census(grid, Herbivore) == herbivores;
      FreshBoardWellFormed(grid);
      ok := true;
    }

    /** Clears the grid to N*N empty cells. */
    method Reset()
      modifies this`grid
      ensures Shaped(grid) && forall p :: InBounds(p) ==> At(grid, p) == EmptyCell
      ensures Census(grid, Empty) == N * N
      ensures Census(grid, Plant) == 0 && Census(grid, Herbivore) == 0 && Census(grid, Carnivore) == 0
    {
      grid := Blank();
      CensusBlank(Empty);
      CensusBlank(Plant);
      CensusBlank(Herbivore);
      CensusBlank(Carnivore);
    }

    /** Places count entities of kind k, each on some cell that is empty
        at the time: the cell drawn is one the redraw condition accepts,
        which cell that is being left open. */
    method Place(k: Kind, count: nat)
      requires Shaped(grid) && k != Empty
      requires forall p :: InBounds(p) ==> Fresh(At(grid, p))
      requires count <= Census(grid, Empty)
      modifies this`grid
      ensures Shaped(grid)
      ensures forall p :: InBounds(p) ==> Fresh(At(grid, p))
      ensures Census(grid, k) == old(Census(grid, k)) + count
      ensures Census(grid, Empty) == old(Census(grid, Empty)) - count
      ensures forall other :: other != k && other != Empty ==> Census(grid, other) == old(Census(grid, other))
      ensures forall p :: InBounds(p) && At(old(grid), p).kind != Empty ==> At(grid, p) == At(old(grid), p)
      ensures forall p :: InBounds(p) && At(grid, p) != At(old(grid), p) ==>
                At(old(grid), p) == EmptyCell && At(grid, p) == Seeded(k, EmptyCell)
    {
      for n := 0 to count
        invariant Shaped(grid)
        invariant forall p :: InBounds(p) ==> Fresh(At(grid, p))
        invariant Census(grid, k) == old(Census(grid, k)) + n
        invariant Census(grid, Empty) == old(Census(grid, Empty)) - n
        invariant forall other :: other != k && other != Empty ==> Census(grid, other) == old(Census(grid, other))
        invariant forall p :: InBounds(p) && At(old(grid), p).kind != Empty ==> At(grid, p) == At(old(grid), p)
        invariant forall p :: InBounds(p) && At(grid, p) != At(old(grid), p) ==>
                    At(old(grid), p) == EmptyCell && At(grid, p) == Seeded(k, EmptyCell)
      {
        CensusWitness(grid, Empty);
        var line: nat, column: nat :| line < N && column < N && !RedrawGuard(grid[line][column].kind);
        assert !RedrawGuard(grid[line][column].kind);
        assert grid[line][column].kind == Empty;
        var p := Pos(line, column);
        ghost var before := grid;
        assert At(grid, p) == EmptyCell;
        var seeded := Seeded(k, grid[line][column]);
        Write(p, seeded);
        forall other
          ensures Census(grid, other) + Tally(At(before, p), other) == Census(before, other) + Tally(seeded, other)
        {
          CensusPut(before, p, seeded, other);
        }
      }
    }
  }
}
