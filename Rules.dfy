/** The rules of one tick, as functions on values: the plant rule, the rule
    shared by herbivores and carnivores, the visit of one cell and the
    row-major scan of the whole board. Every random outcome a visit may use
    comes from an oracle, one Draws record per cell. */
module Rules {
  import opened Entities
  import opened Grid

  /** The random outcomes one visit of a cell may consume: the reproduction
      gate and the drawn candidate for the child, the directions in which a
      herbivore's eat attempt succeeds, the move gate and the drawn
      candidate for the move. A drawn candidate is taken modulo the length
      of the candidate list, so every index in [0, length) is reachable. */
  datatype Draws = Draws(reproduce: bool, spawnPick: nat, eat: set<Dir>, move: bool, movePick: nat)

  /** The state the scan threads from cell to cell: the board and the
      acted-set, kept as the list of marked positions in marking order. */
  datatype World = World(board: Board, acted: seq<Pos>)

  /** The candidate drawn from a non-empty candidate list. */
  function Pick(cands: seq<Pos>, k: nat): (q: Pos)
    requires |cands| > 0
    ensures q in cands
  {
    cands[k % |cands|]
  }

  /** r's acted-set is w's with at most `bound` positions appended, each an
      in-bounds neighbour of p. */
  ghost predicate Appends(w: World, r: World, p: Pos, bound: nat) {
    && |w.acted| <= |r.acted| <= |w.acted| + bound
    && r.acted[..|w.acted|] == w.acted
    && forall q :: q in r.acted[|w.acted|..] ==> InBounds(q) && Adjacent(p, q)
  }

  /** Reproduction into a drawn empty neighbour of p: when there is one, the
      child of kind k is written there and its position is marked acted. */
  function Spawn(w: World, p: Pos, k: Kind, pick: nat): (r: World)
    requires Shaped(w.board) && InBounds(p) && k != Empty
    ensures Shaped(r.board)
  {
    var cands := EmptyNeighbours(w.board, p);
    if cands == [] then w
    else
      var q := Pick(cands, pick);
      World(Put(w.board, q, Offspring(k, At(w.board, q))), w.acted + [q])
  }

  /** What a spawn does: nothing without an empty neighbour; otherwise it
      writes the child into one of the empty neighbours, marks that cell
      and changes no other cell. Well-formed boards stay well formed. */
  lemma SpawnEffect(w: World, p: Pos, k: Kind, pick: nat)
    requires Shaped(w.board) && InBounds(p) && k != Empty
    ensures var r := Spawn(w, p, k, pick);
      && (BoardWellFormed(w.board) ==> BoardWellFormed(r.board))
      && (EmptyNeighbours(w.board, p) == [] ==> r == w)
      && (EmptyNeighbours(w.board, p) != [] ==>
        && |r.acted| == |w.acted| + 1 && r.acted[..|w.acted|] == w.acted
        && var q := r.acted[|w.acted|];
           && q in EmptyNeighbours(w.board, p) && InBounds(q)
           && At(r.board, q) == Offspring(k, At(w.board, q))
           && forall o :: InBounds(o) && o != q ==> At(r.board, o) == At(w.board, o))
  {
    if EmptyNeighbours(w.board, p) != [] {
      EmptyNeighboursMembers(w.board, p);
      var q := Pick(EmptyNeighbours(w.board, p), pick);
      assert (w.acted + [q])[..|w.acted|] == w.acted;
    }
  }

  /** The plant rule: a plant of age 10 dies; otherwise it ages by one and,
      when the reproduction gate opens, spawns a plant into a drawn empty
      neighbour. */
  function PlantRule(w: World, p: Pos, d: Draws): (r: World)
    requires Shaped(w.board) && InBounds(p) && At(w.board, p).kind == Plant
    ensures Shaped(r.board)
  {
    var c := At(w.board, p);
    if c.age == PLANT_MAXIMUM_AGE then
      World(Put(w.board, p, EmptyCell), w.acted)
    else
      var aged := World(Put(w.board, p, c.(age := c.age + 1)), w.acted);
      if d.reproduce then Spawn(aged, p, Plant, d.spawnPick) else aged
  }

  /** What the plant rule does: a plant of age 10 becomes {empty, 0, 0};
      any other plant ages by one and, exactly when the gate opens and it
      has an empty neighbour, writes a plant into one of them and marks it;
      nothing else changes. */
  lemma PlantRuleEffect(w: World, p: Pos, d: Draws)
    requires Shaped(w.board) && InBounds(p) && At(w.board, p).kind == Plant
    ensures var r := PlantRule(w, p, d);
      && (At(w.board, p).age == PLANT_MAXIMUM_AGE ==> r == World(Put(w.board, p, EmptyCell), w.acted))
      && (At(w.board, p).age != PLANT_MAXIMUM_AGE ==>
            At(r.board, p) == At(w.board, p).(age := At(w.board, p).age + 1))
    ensures var r := PlantRule(w, p, d);
      && (|r.acted| == |w.acted| + 1 <==>
            && At(w.board, p).age != PLANT_MAXIMUM_AGE && d.reproduce
            && EmptyNeighbours(w.board, p) != [])
      && (|r.acted| == |w.acted| + 1 ==>
            var q := r.acted[|w.acted|];
            && q in EmptyNeighbours(w.board, p) && InBounds(q)
            && At(r.board, q) == Offspring(Plant, At(w.board, q)))
      && (|r.acted| == |w.acted| ==>
            forall q :: InBounds(q) && q != p ==> At(r.board, q) == At(w.board, q))
  {
    var c := At(w.board, p);
    if c.age != PLANT_MAXIMUM_AGE {
      var aged := World(Put(w.board, p, c.(age := c.age + 1)), w.acted);
      PutKeepsNeighbours(w.board, p, c.(age := c.age + 1), Empty, AllDirs);
      SpawnEffect(aged, p, Plant, d.spawnPick);
      if d.reproduce && EmptyNeighbours(w.board, p) != [] {
        EmptyNeighboursMembers(w.board, p);
        var q := PlantRule(w, p, d).acted[|w.acted|];
        assert At(aged.board, q) == At(w.board, q);
      }
    }
  }

  /** The plant rule keeps the board well formed, changes only p and its
      neighbours, and marks at most one neighbour. */
  lemma PlantRuleLocal(w: World, p: Pos, d: Draws)
    requires Shaped(w.board) && InBounds(p) && At(w.board, p).kind == Plant
    ensures var r := PlantRule(w, p, d);
      && (BoardWellFormed(w.board) ==> BoardWellFormed(r.board))
      && (forall q :: InBounds(q) && !Near(p, q) ==> At(r.board, q) == At(w.board, q))
      && Appends(w, r, p, 1)
  {
    var c := At(w.board, p);
    EmptyNeighboursMembers(w.board, p);
    if c.age != PLANT_MAXIMUM_AGE {
      var aged := World(Put(w.board, p, c.(age := c.age + 1)), w.acted);
      PutKeepsNeighbours(w.board, p, c.(age := c.age + 1), Empty, AllDirs);
      SpawnEffect(aged, p, Plant, d.spawnPick);
      if BoardWellFormed(w.board) {
        PutWellFormed(w.board, p, c.(age := c.age + 1));
      }
      if d.reproduce && EmptyNeighbours(w.board, p) != [] {
        var r := Spawn(aged, p, Plant, d.spawnPick);
        assert r.acted[|w.acted|..] == [r.acted[|w.acted|]];
      }
    }
  }

  /** One eat attempt in direction dir: when the neighbour there holds prey
      and the attempt succeeds (dir is in eat), the neighbour becomes empty
      and the eater at p gains `gain` energy. */
  function EatAt(b: Board, p: Pos, dir: Dir, prey: Kind, gain: int, eat: set<Dir>): (r: Board)
    requires Shaped(b) && InBounds(p)
    ensures Shaped(r)
    ensures At(r, p) == At(b, p).(energy := At(b, p).energy + Earned(gain, |Along(b, p, prey, eat, dir)|))
  {
    if dir in eat && HasNeighbour(p, dir) && At(b, Toward(p, dir)).kind == prey then
      var emptied := Put(b, Toward(p, dir), EmptyCell);
      Put(emptied, p, At(emptied, p).(energy := At(emptied, p).energy + gain))
    else b
  }

  /** An eat attempt empties the eaten neighbour, if any, and changes no
      other cell but p. */
  lemma EatAtFrame(b: Board, p: Pos, dir: Dir, prey: Kind, gain: int, eat: set<Dir>)
    requires Shaped(b) && InBounds(p)
    ensures var r := EatAt(b, p, dir, prey, gain, eat);
      && (forall q :: q in Along(b, p, prey, eat, dir) ==> InBounds(q) && At(r, q) == EmptyCell)
      && (forall q :: InBounds(q) && q != p && q !in Along(b, p, prey, eat, dir) ==> At(r, q) == At(b, q))
  {
  }

  /** An eat attempt in one direction does not change what lies in another. */
  lemma EatAtKeepsAlong(b: Board, p: Pos, dir: Dir, other: Dir, prey: Kind, gain: int, eat: set<Dir>)
    requires Shaped(b) && InBounds(p) && dir != other
    ensures Along(EatAt(b, p, dir, prey, gain, eat), p, prey, eat, other) == Along(b, p, prey, eat, other)
  {
    EatAtFrame(b, p, dir, prey, gain, eat);
    if HasNeighbour(p, other) {
      assert DirOf(p, Toward(p, other)) == other;
    }
  }

  /** The four eat attempts of an animal at p, in the order down, up, right,
      left: every neighbour of kind prey in a succeeding direction is eaten
      and becomes empty, the eater gains `gain` per prey eaten, and nothing
      else changes. */
  function Feed(b: Board, p: Pos, prey: Kind, gain: int, eat: set<Dir>): (r: Board)
    requires Shaped(b) && InBounds(p)
    ensures Shaped(r)
    ensures At(r, p) == At(b, p).(energy := At(b, p).energy + Earned(gain, |NeighboursOfKind(b, p, prey, eat)|))
  {
    var down, up := Along(b, p, prey, eat, Down), Along(b, p, prey, eat, Up);
    var right, left := Along(b, p, prey, eat, Right), Along(b, p, prey, eat, Left);
    var b1 := EatAt(b, p, Down, prey, gain, eat);
    var b2 := EatAt(b1, p, Up, prey, gain, eat);
    var b3 := EatAt(b2, p, Right, prey, gain, eat);
    var r := EatAt(b3, p, Left, prey, gain, eat);
    KeptAlong(b, p, prey, gain, eat);
    assert |NeighboursOfKind(b, p, prey, eat)| == |down| + |up| + |right| + |left|;
    EarnedSum(gain, |down|, |up|);
    EarnedSum(gain, |down| + |up|, |right|);
    EarnedSum(gain, |down| + |up| + |right|, |left|);
    r
  }

  /** Every neighbour that holds prey in a direction where eating succeeds
      becomes {empty, 0, 0}, and every other cell but p is unchanged. */
  lemma FeedFrame(b: Board, p: Pos, prey: Kind, gain: int, eat: set<Dir>)
    requires Shaped(b) && InBounds(p)
    ensures var r := Feed(b, p, prey, gain, eat);
      && (forall q :: q in NeighboursOfKind(b, p, prey, eat) ==> InBounds(q) && At(r, q) == EmptyCell)
      && (forall q :: InBounds(q) && q != p && q !in NeighboursOfKind(b, p, prey, eat) ==> At(r, q) == At(b, q))
  {
    var b1 := EatAt(b, p, Down, prey, gain, eat);
    var b2 := EatAt(b1, p, Up, prey, gain, eat);
    var b3 := EatAt(b2, p, Right, prey, gain, eat);
    KeptAlong(b, p, prey, gain, eat);
    EatAtFrame(b, p, Down, prey, gain, eat);
    EatAtFrame(b1, p, Up, prey, gain, eat);
    EatAtFrame(b2, p, Right, prey, gain, eat);
    EatAtFrame(b3, p, Left, prey, gain, eat);
  }

  /** Each of the four eat attempts sees the neighbour in its own direction
      as it was before feeding began. */
  lemma KeptAlong(b: Board, p: Pos, prey: Kind, gain: int, eat: set<Dir>)
    requires Shaped(b) && InBounds(p)
    ensures var b1 := EatAt(b, p, Down, prey, gain, eat);
      var b2 := EatAt(b1, p, Up, prey, gain, eat);
      var b3 := EatAt(b2, p, Right, prey, gain, eat);
      && Along(b1, p, prey, eat, Up) == Along(b, p, prey, eat, Up)
      && Along(b2, p, prey, eat, Right) == Along(b, p, prey, eat, Right)
      && Along(b3, p, prey, eat, Left) == Along(b, p, prey, eat, Left)
  {
    var b1 := EatAt(b, p, Down, prey, gain, eat);
    var b2 := EatAt(b1, p, Up, prey, gain, eat);
    EatAtKeepsAlong(b, p, Down, Up, prey, gain, eat);
    EatAtKeepsAlong(b, p, Down, Right, prey, gain, eat);
    EatAtKeepsAlong(b, p, Down, Left, prey, gain, eat);
    EatAtKeepsAlong(b1, p, Up, Right, prey, gain, eat);
    EatAtKeepsAlong(b1, p, Up, Left, prey, gain, eat);
    EatAtKeepsAlong(b2, p, Right, Left, prey, gain, eat);
  }

  /** Feeding keeps every cell well formed when the eater is an animal. */
  lemma FeedWellFormed(b: Board, p: Pos, prey: Kind, gain: int, eat: set<Dir>)
    requires Shaped(b) && InBounds(p) && IsAnimal(At(b, p).kind)
    ensures BoardWellFormed(b) ==> BoardWellFormed(Feed(b, p, prey, gain, eat))
  {
    FeedFrame(b, p, prey, gain, eat);
  }

  /** The energy earned by eating n prey worth `gain` each, as n-fold addition. */
  function Earned(gain: int, n: nat): int {
    if n == 0 then 0 else Earned(gain, n - 1) + gain
  }

  /** Earnings for m prey and then n more add up. */
  lemma {:induction false} EarnedSum(gain: int, m: nat, n: nat)
    ensures Earned(gain, m + n) == Earned(gain, m) + Earned(gain, n)
  {
    if n > 0 {
      EarnedSum(gain, m, n - 1);
      assert Earned(gain, m + n) == Earned(gain, m + (n - 1)) + gain;
    }
  }

  /** The earnings are exactly gain times the number of prey. */
  lemma {:induction false} EarnedIsProduct(gain: int, n: nat)
    ensures Earned(gain, n) == gain * n
  {
    if n > 0 {
      EarnedIsProduct(gain, n - 1);
    }
  }

  /** Reproduction of an animal: when there is an empty neighbour, a child
      is spawned into a drawn one and the parent pays 10 energy. */
  function Reproduce(w: World, p: Pos, pick: nat): (r: World)
    requires Shaped(w.board) && InBounds(p) && IsAnimal(At(w.board, p).kind)
    ensures Shaped(r.board)
  {
    var cands := EmptyNeighbours(w.board, p);
    if cands == [] then w
    else
      var q := Pick(cands, pick);
      var parent := At(w.board, p);
      var spawned := Put(w.board, q, Offspring(parent.kind, At(w.board, q)));
      World(Put(spawned, p, parent.(energy := parent.energy - REPRODUCTION_COST)), w.acted + [q])
  }

  /** What a reproduction does: nothing without an empty neighbour;
      otherwise the child of the parent's kind is written into one drawn
      empty neighbour, which is marked acted, the parent pays 10 energy,
      and no other cell changes. Well-formed boards stay well formed. */
  lemma ReproduceEffect(w: World, p: Pos, pick: nat)
    requires Shaped(w.board) && InBounds(p) && IsAnimal(At(w.board, p).kind)
    ensures var r := Reproduce(w, p, pick);
      && (BoardWellFormed(w.board) ==> BoardWellFormed(r.board))
      && (EmptyNeighbours(w.board, p) == [] ==> r == w)
      && (EmptyNeighbours(w.board, p) != [] ==>
        && |r.acted| == |w.acted| + 1 && r.acted[..|w.acted|] == w.acted
        && var q := r.acted[|w.acted|];
           && q in EmptyNeighbours(w.board, p) && InBounds(q)
           && At(r.board, q) == Offspring(At(w.board, p).kind, At(w.board, q))
           && At(r.board, p) == At(w.board, p).(energy := At(w.board, p).energy - REPRODUCTION_COST)
           && forall o :: InBounds(o) && o != p && o != q ==> At(r.board, o) == At(w.board, o))
  {
    if EmptyNeighbours(w.board, p) != [] {
      EmptyNeighboursMembers(w.board, p);
      var q := Pick(EmptyNeighbours(w.board, p), pick);
      assert (w.acted + [q])[..|w.acted|] == w.acted;
    }
  }

  /** A move: when there is an empty neighbour, the animal at p goes to a
      drawn one, keeping its kind and age and paying 5 energy, and p
      becomes empty. */
  function Move(w: World, p: Pos, pick: nat): (r: World)
    requires Shaped(w.board) && InBounds(p)
    ensures Shaped(r.board)
  {
    var cands := EmptyNeighbours(w.board, p);
    if cands == [] then w
    else
      var q := Pick(cands, pick);
      var c := At(w.board, p);
      var moved := Put(w.board, q, Cell(c.kind, c.energy - MOVE_COST, c.age));
      World(Put(moved, p, EmptyCell), w.acted + [q])
  }

  /** What a move does: nothing without an empty neighbour; otherwise the
      animal is written into one drawn empty neighbour with 5 less energy,
      that cell is marked, p becomes {empty, 0, 0} and no other cell
      changes. Well-formed boards stay well formed. */
  lemma MoveEffect(w: World, p: Pos, pick: nat)
    requires Shaped(w.board) && InBounds(p)
    ensures var r := Move(w, p, pick);
      && (IsAnimal(At(w.board, p).kind) && BoardWellFormed(w.board) ==> BoardWellFormed(r.board))
      && (EmptyNeighbours(w.board, p) == [] ==> r == w)
      && (EmptyNeighbours(w.board, p) != [] ==>
        && |r.acted| == |w.acted| + 1 && r.acted[..|w.acted|] == w.acted
        && var q := r.acted[|w.acted|];
           && q in EmptyNeighbours(w.board, p) && InBounds(q)
           && At(r.board, q) == At(w.board, p).(energy := At(w.board, p).energy - MOVE_COST)
           && At(r.board, p) == EmptyCell
           && forall o :: InBounds(o) && o != p && o != q ==> At(r.board, o) == At(w.board, o))
  {
    if EmptyNeighbours(w.board, p) != [] {
      EmptyNeighboursMembers(w.board, p);
      var q := Pick(EmptyNeighbours(w.board, p), pick);
      assert (w.acted + [q])[..|w.acted|] == w.acted;
    }
  }

  /** The directions in which an animal's eat attempts succeed: a carnivore
      eats with probability 1, so in every direction; a herbivore where the
      oracle says so. */
  function Appetite(k: Kind, eat: set<Dir>): set<Dir> {
    if k == Carnivore then AllDirs else eat
  }

  /** The death check of an animal. */
  predicate AnimalDies(c: Cell) {
    c.age == AgeLimit(c.kind) || c.energy <= 0
  }

  /** The board of a surviving animal after it has aged and eaten: only p
      and its neighbours change, every cell empty afterwards was empty or
      prey before, and the animal at p is one year older and has gained
      energy for every prey eaten. */
  function AfterEating(w: World, p: Pos, d: Draws): (b: Board)
    requires Shaped(w.board) && InBounds(p) && IsAnimal(At(w.board, p).kind)
    requires !AnimalDies(At(w.board, p))
    ensures Shaped(b)
    ensures var c := At(w.board, p);
            var eaten := NeighboursOfKind(w.board, p, Prey(c.kind), Appetite(c.kind, d.eat));
            At(b, p) == Cell(c.kind, c.energy + Earned(Gain(c.kind), |eaten|), c.age + 1)
  {
    var c := At(w.board, p);
    var aged := Put(w.board, p, c.(age := c.age + 1));
    var dirs, prey, gain := Appetite(c.kind, d.eat), Prey(c.kind), Gain(c.kind);
    PutKeepsNeighbours(w.board, p, c.(age := c.age + 1), prey, dirs);
    var fed := Feed(aged, p, prey, gain, dirs);
    var n := |NeighboursOfKind(aged, p, prey, dirs)|;
    assert n == |NeighboursOfKind(w.board, p, prey, dirs)|;
    assert At(fed, p) == Cell(c.kind, c.energy + Earned(gain, n), c.age + 1);
    fed
  }

  /** Eating empties exactly the prey neighbours in the directions of the
      animal's appetite, to {empty, 0, 0}, and leaves every other cell but p
      unchanged. */
  lemma AfterEatingLocal(w: World, p: Pos, d: Draws)
    requires Shaped(w.board) && InBounds(p) && IsAnimal(At(w.board, p).kind)
    requires !AnimalDies(At(w.board, p))
    ensures var b := AfterEating(w, p, d);
      var c := At(w.board, p);
      var eaten := NeighboursOfKind(w.board, p, Prey(c.kind), Appetite(c.kind, d.eat));
      && (forall q :: q in eaten ==> InBounds(q) && At(b, q) == EmptyCell)
      && (forall q :: InBounds(q) && q != p && q !in eaten ==> At(b, q) == At(w.board, q))
  {
    var c := At(w.board, p);
    var dirs, prey := Appetite(c.kind, d.eat), Prey(c.kind);
    var aged := Put(w.board, p, c.(age := c.age + 1));
    PutKeepsNeighbours(w.board, p, c.(age := c.age + 1), prey, dirs);
    FeedFrame(aged, p, prey, Gain(c.kind), dirs);
    var b, eaten := AfterEating(w, p, d), NeighboursOfKind(w.board, p, prey, dirs);
    assert b == Feed(aged, p, prey, Gain(c.kind), dirs);
    forall q | InBounds(q) && q != p && q !in eaten
      ensures At(b, q) == At(w.board, q)
    {
      assert At(b, q) == At(aged, q);
    }
  }

  /** Eating therefore changes only p and its neighbours, keeps the board
      well formed, and leaves empty only cells that were empty or prey. */
  lemma AfterEatingFrame(w: World, p: Pos, d: Draws)
    requires Shaped(w.board) && InBounds(p) && IsAnimal(At(w.board, p).kind)
    requires !AnimalDies(At(w.board, p))
    ensures var b := AfterEating(w, p, d);
      var c := At(w.board, p);
      && (forall q :: InBounds(q) && !Near(p, q) ==> At(b, q) == At(w.board, q))
      && (forall q :: InBounds(q) && At(b, q).kind == Empty ==>
            At(w.board, q).kind == Empty || At(w.board, q).kind == Prey(c.kind))
      && (BoardWellFormed(w.board) ==> BoardWellFormed(b))
  {
    var c := At(w.board, p);
    AfterEatingLocal(w, p, d);
    NeighboursOfKindMembers(w.board, p, Prey(c.kind), Appetite(c.kind, d.eat));
  }

  /** The world of a surviving animal after it has aged, eaten and, when
      the gate opens and its energy after eating is at least 20, reproduced. */
  function AfterBreeding(w: World, p: Pos, d: Draws): (r: World)
    requires Shaped(w.board) && InBounds(p) && IsAnimal(At(w.board, p).kind)
    requires !AnimalDies(At(w.board, p))
    ensures Shaped(r.board)
    ensures At(r.board, p).kind == At(w.board, p).kind && At(r.board, p).age == At(w.board, p).age + 1
  {
    var fed := AfterEating(w, p, d);
    if d.reproduce && At(fed, p).energy >= THRESHOLD_ENERGY_FOR_REPRODUCTION
    then Reproduce(World(fed, w.acted), p, d.spawnPick)
    else World(fed, w.acted)
  }

  /** Ageing, eating and breeding change only p and its neighbours and keep
      the board well formed. */
  lemma AfterBreedingLocal(w: World, p: Pos, d: Draws)
    requires Shaped(w.board) && InBounds(p) && IsAnimal(At(w.board, p).kind)
    requires !AnimalDies(At(w.board, p))
    ensures var r := AfterBreeding(w, p, d);
      && (BoardWellFormed(w.board) ==> BoardWellFormed(r.board))
      && (forall q :: InBounds(q) && !Near(p, q) ==> At(r.board, q) == At(w.board, q))
  {
    AfterEatingFrame(w, p, d);
    var fed := AfterEating(w, p, d);
    EmptyNeighboursMembers(fed, p);
    ReproduceEffect(World(fed, w.acted), p, d.spawnPick);
  }

  /** Ageing, eating and breeding mark at most one neighbour, which was
      empty or prey, and leave empty only cells that were empty or prey. */
  lemma AfterBreedingMarks(w: World, p: Pos, d: Draws)
    requires Shaped(w.board) && InBounds(p) && IsAnimal(At(w.board, p).kind)
    requires !AnimalDies(At(w.board, p))
    ensures var r := AfterBreeding(w, p, d);
      && Appends(w, r, p, 1)
      && (forall q :: q in r.acted[|w.acted|..] ==>
            At(w.board, q).kind == Empty || At(w.board, q).kind == Prey(At(w.board, p).kind))
      && (forall q :: InBounds(q) && At(r.board, q).kind == Empty ==>
            At(w.board, q).kind == Empty || At(w.board, q).kind == Prey(At(w.board, p).kind))
  {
    var fed := AfterEating(w, p, d);
    AfterEatingFrame(w, p, d);
    ReproduceMarks(World(fed, w.acted), p, d.spawnPick);
  }

  /** A reproduction marks at most the child's cell, an empty neighbour, and
      empties no cell. */
  lemma ReproduceMarks(w: World, p: Pos, pick: nat)
    requires Shaped(w.board) && InBounds(p) && IsAnimal(At(w.board, p).kind)
    ensures var r := Reproduce(w, p, pick);
      && Appends(w, r, p, 1)
      && (forall q :: q in r.acted[|w.acted|..] ==> InBounds(q) && At(w.board, q).kind == Empty)
      && (forall q :: InBounds(q) && At(r.board, q).kind == Empty ==> At(w.board, q).kind == Empty)
  {
    var r := Reproduce(w, p, pick);
    EmptyNeighboursMembers(w.board, p);
    ReproduceEffect(w, p, pick);
    assert r.acted[|w.acted|..] == if |r.acted| == |w.acted| then [] else [r.acted[|w.acted|]];
  }

  /** The rule shared by herbivores and carnivores: die at the age limit or
      with no energy; otherwise age by one, eat the adjacent prey, reproduce
      when the gate opens and the energy after eating is at least 20, and
      move when the move gate opens. */
  function AnimalRule(w: World, p: Pos, d: Draws): (r: World)
    requires Shaped(w.board) && InBounds(p) && IsAnimal(At(w.board, p).kind)
    ensures Shaped(r.board)
  {
    if AnimalDies(At(w.board, p)) then
      World(Put(w.board, p, EmptyCell), w.acted)
    else
      var bred := AfterBreeding(w, p, d);
      if d.move then Move(bred, p, d.movePick) else bred
  }

  /** The animal rule changes only p and its neighbours and keeps the board
      well formed. */
  lemma AnimalRuleLocal(w: World, p: Pos, d: Draws)
    requires Shaped(w.board) && InBounds(p) && IsAnimal(At(w.board, p).kind)
    ensures var r := AnimalRule(w, p, d);
      && (BoardWellFormed(w.board) ==> BoardWellFormed(r.board))
      && (forall q :: InBounds(q) && !Near(p, q) ==> At(r.board, q) == At(w.board, q))
  {
    if !AnimalDies(At(w.board, p)) {
      AfterBreedingLocal(w, p, d);
      EmptyNeighboursMembers(AfterBreeding(w, p, d).board, p);
      MoveEffect(AfterBreeding(w, p, d), p, d.movePick);
    }
  }

  /** The animal rule marks at most two neighbours of p (a child and a move
      destination), each of which was empty or held prey. */
  lemma AnimalRuleMarks(w: World, p: Pos, d: Draws)
    requires Shaped(w.board) && InBounds(p) && IsAnimal(At(w.board, p).kind)
    ensures var r := AnimalRule(w, p, d);
      && Appends(w, r, p, 2)
      && forall q :: q in r.acted[|w.acted|..] ==>
           At(w.board, q).kind == Empty || At(w.board, q).kind == Prey(At(w.board, p).kind)
  {
    if !AnimalDies(At(w.board, p)) {
      var bred := AfterBreeding(w, p, d);
      AfterBreedingMarks(w, p, d);
      if d.move {
        var r := Move(bred, p, d.movePick);
        MoveMarks(bred, p, d.movePick);
        AppendsChain(w, bred, r, p, 1, 1);
        forall q | q in r.acted[|w.acted|..]
          ensures At(w.board, q).kind == Empty || At(w.board, q).kind == Prey(At(w.board, p).kind)
        {
          if q in r.acted[|bred.acted|..] {
            assert InBounds(q) && At(bred.board, q).kind == Empty;
          }
        }
      }
    }
  }

  /** A move marks at most its destination, an empty neighbour. */
  lemma MoveMarks(w: World, p: Pos, pick: nat)
    requires Shaped(w.board) && InBounds(p)
    ensures var r := Move(w, p, pick);
      && Appends(w, r, p, 1)
      && forall q :: q in r.acted[|w.acted|..] ==> InBounds(q) && At(w.board, q).kind == Empty
  {
    var r := Move(w, p, pick);
    EmptyNeighboursMembers(w.board, p);
    MoveEffect(w, p, pick);
    assert r.acted[|w.acted|..] == if |r.acted| == |w.acted| then [] else [r.acted[|w.acted|]];
  }

  /** A child written into a well-formed board is a newborn: the target
      cell was empty, so it held zeros, and the child has age 0 and energy
      0 (a plant) or 100 (an animal), although a plant spawn writes only
      the kind and a herbivore spawn only the kind and the energy. */
  lemma NewbornsAreFresh(w: World, p: Pos, k: Kind, pick: nat)
    requires Shaped(w.board) && InBounds(p) && BoardWellFormed(w.board)
    ensures k != Empty && EmptyNeighbours(w.board, p) != [] ==>
      var r := Spawn(w, p, k, pick);
      At(r.board, r.acted[|w.acted|]) == Cell(k, if k == Plant then 0 else OFFSPRING_ENERGY, 0)
    ensures IsAnimal(At(w.board, p).kind) && EmptyNeighbours(w.board, p) != [] ==>
      var r := Reproduce(w, p, pick);
      At(r.board, r.acted[|w.acted|]) == Cell(At(w.board, p).kind, OFFSPRING_ENERGY, 0)
  {
    if EmptyNeighbours(w.board, p) != [] {
      var q := Pick(EmptyNeighbours(w.board, p), pick);
      EmptyWellFormed(At(w.board, q));
    }
  }

  /** The parent after ageing, eating and breeding: it reproduced exactly
      when the gate opened, its energy after eating was at least 20 and it
      had an empty neighbour; then one mark was added and the parent paid 10. */
  lemma AfterBreedingParent(w: World, p: Pos, d: Draws)
    requires Shaped(w.board) && InBounds(p) && IsAnimal(At(w.board, p).kind)
    requires !AnimalDies(At(w.board, p))
    ensures var c := At(w.board, p);
      var fed := AfterEating(w, p, d);
      var reproduced := d.reproduce && At(fed, p).energy >= THRESHOLD_ENERGY_FOR_REPRODUCTION
                        && EmptyNeighbours(fed, p) != [];
      var r := AfterBreeding(w, p, d);
      && |r.acted| == |w.acted| + (if reproduced then 1 else 0)
      && At(r.board, p) == At(fed, p).(energy := At(fed, p).energy - if reproduced then REPRODUCTION_COST else 0)
  {
    ReproduceEffect(World(AfterEating(w, p, d), w.acted), p, d.spawnPick);
  }

  /** Whether a surviving animal reproduces: the gate opens, its energy
      after eating is at least 20 and it has an empty neighbour then. */
  predicate Reproduced(w: World, p: Pos, d: Draws)
    requires Shaped(w.board) && InBounds(p) && IsAnimal(At(w.board, p).kind)
    requires !AnimalDies(At(w.board, p))
  {
    var fed := AfterEating(w, p, d);
    d.reproduce && At(fed, p).energy >= THRESHOLD_ENERGY_FOR_REPRODUCTION && EmptyNeighbours(fed, p) != []
  }

  /** Whether a surviving animal moves: the gate opens and it has an empty
      neighbour after breeding. */
  predicate Moved(w: World, p: Pos, d: Draws)
    requires Shaped(w.board) && InBounds(p) && IsAnimal(At(w.board, p).kind)
    requires !AnimalDies(At(w.board, p))
  {
    d.move && EmptyNeighbours(AfterBreeding(w, p, d).board, p) != []
  }

  /** The energy of a surviving animal at the end of its visit: the old
      energy plus the gain for every prey eaten, less 10 when it reproduced
      and less 5 when it moved. */
  function FinalEnergy(w: World, p: Pos, d: Draws): int
    requires Shaped(w.board) && InBounds(p) && IsAnimal(At(w.board, p).kind)
    requires !AnimalDies(At(w.board, p))
  {
    var c := At(w.board, p);
    var eaten := NeighboursOfKind(w.board, p, Prey(c.kind), Appetite(c.kind, d.eat));
    c.energy + Earned(Gain(c.kind), |eaten|)
      - (if Reproduced(w, p, d) then REPRODUCTION_COST else 0)
      - (if Moved(w, p, d) then MOVE_COST else 0)
  }

  /** The accounting of one animal visit. An animal at its age limit or
      without energy becomes {empty, 0, 0}, marks nothing and does nothing
      else. A survivor marks one cell for a child and one for a move. */
  lemma AnimalRuleOutcome(w: World, p: Pos, d: Draws)
    requires Shaped(w.board) && InBounds(p) && IsAnimal(At(w.board, p).kind)
    ensures AnimalDies(At(w.board, p)) ==>
      AnimalRule(w, p, d) == World(Put(w.board, p, EmptyCell), w.acted)
    ensures !AnimalDies(At(w.board, p)) ==>
      var r := AnimalRule(w, p, d);
      |r.acted| == |w.acted| + (if Reproduced(w, p, d) then 1 else 0) + (if Moved(w, p, d) then 1 else 0)
  {
    if !AnimalDies(At(w.board, p)) {
      var bred := AfterBreeding(w, p, d);
      AfterBreedingParent(w, p, d);
      if Moved(w, p, d) {
        MoveEffect(bred, p, d.movePick);
      }
    }
  }

  /** A surviving animal is exactly one year older at the end of its visit
      and has the final energy; it is at p, or, when it moved, at the move
      destination (the last mark, a neighbour of p) and p is empty. */
  lemma AnimalRuleSurvivor(w: World, p: Pos, d: Draws)
    requires Shaped(w.board) && InBounds(p) && IsAnimal(At(w.board, p).kind)
    requires !AnimalDies(At(w.board, p))
    ensures var c := At(w.board, p);
      var r := AnimalRule(w, p, d);
      var survivor := Cell(c.kind, FinalEnergy(w, p, d), c.age + 1);
      && (Moved(w, p, d) ==> |r.acted| > 0 && var q := r.acted[|r.acted| - 1];
            && InBounds(q) && Adjacent(p, q) && At(r.board, q) == survivor && At(r.board, p) == EmptyCell)
      && (!Moved(w, p, d) ==> At(r.board, p) == survivor)
  {
    var c := At(w.board, p);
    var bred := AfterBreeding(w, p, d);
    AfterBreedingParent(w, p, d);
    var energy := At(AfterEating(w, p, d), p).energy - if Reproduced(w, p, d) then REPRODUCTION_COST else 0;
    assert At(bred.board, p) == Cell(c.kind, energy, c.age + 1);
    if Moved(w, p, d) {
      var r := Move(bred, p, d.movePick);
      EmptyNeighboursMembers(bred.board, p);
      MoveEffect(bred, p, d.movePick);
      assert AnimalRule(w, p, d) == r;
      assert r.acted[|r.acted| - 1] == r.acted[|bred.acted|];
    } else {
      assert AnimalRule(w, p, d) == bred;
    }
  }

  /** A carnivore eats with probability 1: once a surviving carnivore has
      eaten, none of its neighbours holds a herbivore. */
  lemma CarnivoreEatsEveryNeighbour(w: World, p: Pos, d: Draws)
    requires Shaped(w.board) && InBounds(p) && At(w.board, p).kind == Carnivore
    requires !AnimalDies(At(w.board, p))
    ensures forall q :: InBounds(q) && Adjacent(p, q) ==> At(AfterEating(w, p, d), q).kind != Herbivore
  {
    AfterEatingLocal(w, p, d);
    NeighboursOfKindMembers(w.board, p, Herbivore, AllDirs);
  }

  /** Two appending steps append their sum, and each new entry comes from one of them. */
  lemma AppendsChain(a: World, m: World, r: World, p: Pos, x: nat, y: nat)
    requires Appends(a, m, p, x) && Appends(m, r, p, y)
    ensures Appends(a, r, p, x + y)
    ensures forall q :: q in r.acted[|a.acted|..] ==> q in m.acted[|a.acted|..] || q in r.acted[|m.acted|..]
  {
    assert r.acted[..|a.acted|] == r.acted[..|m.acted|][..|a.acted|];
    assert r.acted[|a.acted|..] == m.acted[|a.acted|..] + r.acted[|m.acted|..];
  }

  /** The visit of one cell by the scan: a marked cell is skipped; otherwise
      the rule of its kind is applied (an empty cell is left alone). */
  function Visit(w: World, p: Pos, d: Draws): (r: World)
    requires Shaped(w.board) && InBounds(p)
    ensures Shaped(r.board)
  {
    if p in w.acted then w
    else
      match At(w.board, p).kind
      case Empty => w
      case Plant => PlantRule(w, p, d)
      case Herbivore => AnimalRule(w, p, d)
      case Carnivore => AnimalRule(w, p, d)
  }

  /** A visit keeps the board well formed, changes only p and its
      neighbours, appends at most two neighbours of p to the acted-set, and
      does nothing to a marked or empty cell. */
  lemma VisitEffect(w: World, p: Pos, d: Draws)
    requires Shaped(w.board) && InBounds(p)
    ensures var r := Visit(w, p, d);
      && (BoardWellFormed(w.board) ==> BoardWellFormed(r.board))
      && (forall q :: InBounds(q) && !Near(p, q) ==> At(r.board, q) == At(w.board, q))
      && Appends(w, r, p, 2)
      && (p in w.acted || At(w.board, p).kind == Empty ==> r == w)
  {
    if p !in w.acted && At(w.board, p).kind == Plant {
      PlantRuleLocal(w, p, d);
    } else if p !in w.acted && IsAnimal(At(w.board, p).kind) {
      AnimalRuleLocal(w, p, d);
      AnimalRuleMarks(w, p, d);
    }
  }

  /** The visit as a total function of the world and the position, as the
      scan applies it; the oracle supplies the draws of each position. */
  function Step(oracle: Pos -> Draws): (World, Pos) -> World {
    (w: World, p: Pos) => if Shaped(w.board) && InBounds(p) then Visit(w, p, oracle(p)) else w
  }

  /** What every visit of a tick guarantees on a shaped board: it keeps the
      shape and the well-formedness of the board, only appends to the
      acted-set, and leaves the world alone at a marked position. */
  ghost predicate Orderly(visit: (World, Pos) -> World) {
    forall x: World, p: Pos :: Shaped(x.board) && InBounds(p) ==>
      var r := visit(x, p);
      && Shaped(r.board)
      && (BoardWellFormed(x.board) ==> BoardWellFormed(r.board))
      && |x.acted| <= |r.acted| && r.acted[..|x.acted|] == x.acted
      && (p in x.acted ==> r == x)
  }

  /** The visit of a tick is orderly. */
  lemma StepOrderly(oracle: Pos -> Draws)
    ensures Orderly(Step(oracle))
  {
    forall x: World, p: Pos | Shaped(x.board) && InBounds(p)
      ensures var r := Step(oracle)(x, p);
        && Shaped(r.board)
        && (BoardWellFormed(x.board) ==> BoardWellFormed(r.board))
        && |x.acted| <= |r.acted| && r.acted[..|x.acted|] == x.acted
        && (p in x.acted ==> r == x)
    {
      VisitEffect(x, p, oracle(p));
      assert Step(oracle)(x, p) == Visit(x, p, oracle(p));
    }
  }

  /** The scan from cell (i, j) to the end of the board, in row-major order,
      applying visit to each cell. */
  function Scan(w: World, i: nat, j: nat, visit: (World, Pos) -> World): World
    requires i <= N && j <= N
    decreases N - i, N - j
  {
    if i == N then w
    else if j == N then Scan(w, i + 1, 0, visit)
    else Scan(visit(w, Pos(i, j)), i, j + 1, visit)
  }

  /** A scan of orderly visits keeps the board's shape and its
      well-formedness and only appends to the acted-set. */
  lemma {:induction false} ScanKeeps(w: World, i: nat, j: nat, visit: (World, Pos) -> World)
    requires Shaped(w.board) && i <= N && j <= N && Orderly(visit)
    ensures var r := Scan(w, i, j, visit);
      && Shaped(r.board)
      && (BoardWellFormed(w.board) ==> BoardWellFormed(r.board))
      && |w.acted| <= |r.acted| && r.acted[..|w.acted|] == w.acted
    decreases N - i, N - j
  {
    if i == N {
    } else if j == N {
      ScanKeeps(w, i + 1, 0, visit);
    } else {
      var v := visit(w, Pos(i, j));
      ScanKeeps(v, i, j + 1, visit);
      var r := Scan(v, i, j + 1, visit);
      assert r.acted[..|w.acted|] == r.acted[..|v.acted|][..|w.acted|];
    }
  }

  /** (i, j) comes no later than t in row-major order. */
  predicate NotAfter(i: nat, j: nat, t: Pos) {
    i < t.row || (i == t.row && j <= t.col)
  }

  /** The world once the scan from (i, j) has visited every cell before t. */
  function ScanUntil(w: World, i: nat, j: nat, t: Pos, visit: (World, Pos) -> World): World
    requires i <= N && j <= N && InBounds(t)
    decreases N - i, N - j
  {
    if !NotAfter(i, j, t) || (i == t.row && j == t.col) then w
    else if j == N then ScanUntil(w, i + 1, 0, t, visit)
    else ScanUntil(visit(w, Pos(i, j)), i, j + 1, t, visit)
  }

  /** The scan from (i, j) is the scan up to t followed by the scan from t. */
  lemma {:induction false} ScanSplit(w: World, i: nat, j: nat, t: Pos, visit: (World, Pos) -> World)
    requires i <= N && j <= N && InBounds(t) && NotAfter(i, j, t)
    ensures Scan(w, i, j, visit) == Scan(ScanUntil(w, i, j, t, visit), t.row, t.col, visit)
    decreases N - i, N - j
  {
    if i == t.row && j == t.col {
    } else if j == N {
      ScanSplit(w, i + 1, 0, t, visit);
    } else {
      ScanSplit(visit(w, Pos(i, j)), i, j + 1, t, visit);
    }
  }

  /** A partial scan of orderly visits keeps the board's shape and only
      appends to the acted-set. */
  lemma {:induction false} ScanUntilKeeps(w: World, i: nat, j: nat, t: Pos, visit: (World, Pos) -> World)
    requires Shaped(w.board) && i <= N && j <= N && InBounds(t) && Orderly(visit)
    ensures var r := ScanUntil(w, i, j, t, visit);
      && Shaped(r.board) && |w.acted| <= |r.acted| && r.acted[..|w.acted|] == w.acted
    decreases N - i, N - j
  {
    if !NotAfter(i, j, t) || (i == t.row && j == t.col) {
    } else if j == N {
      ScanUntilKeeps(w, i + 1, 0, t, visit);
    } else {
      var v := visit(w, Pos(i, j));
      ScanUntilKeeps(v, i, j + 1, t, visit);
      var r := ScanUntil(v, i, j + 1, t, visit);
      assert r.acted[..|w.acted|] == r.acted[..|v.acted|][..|w.acted|];
    }
  }

  /** A position that is marked when the scan reaches it, or earlier, is
      skipped: it is still marked when the scan reaches it, and its visit
      leaves the world unchanged, so the scan passes over it. With the
      orderly visit of a tick (StepOrderly), an entity spawned or moved into
      a cell later in row-major order is not processed again in the same
      tick. */
  lemma MarkedCellSkipped(w: World, i: nat, j: nat, q: Pos, visit: (World, Pos) -> World)
    requires Shaped(w.board) && i <= N && j <= N && InBounds(q) && NotAfter(i, j, q)
    requires Orderly(visit) && q in w.acted
    ensures var reached := ScanUntil(w, i, j, q, visit);
      && q in reached.acted
      && visit(reached, q) == reached
      && Scan(w, i, j, visit) == Scan(reached, q.row, q.col + 1, visit)
  {
    var reached := ScanUntil(w, i, j, q, visit);
    ScanSplit(w, i, j, q, visit);
    ScanUntilKeeps(w, i, j, q, visit);
    assert q in reached.acted by {
      var k :| 0 <= k < |w.acted| && w.acted[k] == q;
      assert reached.acted[..|w.acted|][k] == q;
    }
    assert visit(reached, q) == reached;
    assert Scan(reached, q.row, q.col, visit) == Scan(visit(reached, q), q.row, q.col + 1, visit);
  }

  /** One tick: scan the whole board, then clear the acted-set. */
  function Tick(b: Board, acted: seq<Pos>, oracle: Pos -> Draws): (r: World)
    requires Shaped(b)
    ensures Shaped(r.board) && r.acted == []
    ensures BoardWellFormed(b) ==> BoardWellFormed(r.board)
  {
    StepOrderly(oracle);
    ScanKeeps(World(b, acted), 0, 0, Step(oracle));
    World(Scan(World(b, acted), 0, 0, Step(oracle)).board, [])
  }
}
