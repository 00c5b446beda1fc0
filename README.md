# ecosim: the predator–prey tick engine in Dafny

This project models the core of ecosim, a predator–prey simulation
written in C++. A 15×15 grid holds plants, herbivores and carnivores.
Each cell of the grid is a record of kind, energy and age. Two
operations make up the core:

- **Start** checks the requested population against the 225 cells. On
  rejection the grid is left alone. Otherwise it resets the grid to empty
  cells and places plants, then herbivores, then carnivores, each on a
  cell that is still empty.
- **Tick** scans the grid in row-major order and applies a rule to every
  occupied cell:
  - a plant ages, dies at age 10, and may reproduce;
  - a herbivore or carnivore dies at its age limit (50, or the literal 100
    for carnivores) or with no energy. Otherwise it ages, eats adjacent
    prey, may reproduce when its energy is at least 20, and may move.

  Every cell that a child is spawned into, or an animal moves into, joins
  the *acted-set*. The scan skips cells in the acted-set, and the set is
  cleared when the tick ends.

Modules:

- `Entities`: the kinds, the cell record, the constants, the offspring
  and seeding cells, and the one-character code table.
- `Grid`: the board as a value (`seq<seq<Cell>>`) and positions. It also
  holds the neighbour lists, with inspection order down, up, right, left,
  and a census of cells by kind.
- `Rules`: the rules as functions on a `World` (board plus acted-set). It
  also holds the visit of one cell, the row-major scan and the tick, with
  the lemmas that state what each rule does.
- `Simulation`: class `Ecosystem` holds the grid and the acted-set as
  fields. Its methods update them cell by cell, the way the program does.
  Every rule method is proved equal to the corresponding `Rules` function,
  so the lemmas about those functions apply to the object. `Start`,
  `Reset` and `Place` are proved directly against a census of the grid.

Randomness is an oracle. Every Bernoulli gate and every uniform draw of a
visit comes from one `Rules.Draws` record per cell:

- the reproduction gate;
- the directions in which a herbivore's eat attempt succeeds;
- the move gate;
- two draws that pick among the candidate cells. A draw is taken modulo
  the number of candidates, so every candidate can be picked.

The carnivore eats with probability 1.0, so its eat attempts always
succeed.

The model follows what the program does where that differs from what
its names and comments suggest:

- The tick does not clear the acted-set when it starts, only when it
  ends. `Rules.Tick` therefore starts from whatever acted-set it is given.
  `Simulation.Ecosystem.Tick` leaves it empty.
- A plant spawn writes only the kind. A herbivore spawn writes only the
  kind and the energy. A plant placement writes only the kind and the age.
  These cells equal {kind, 0 or 100, 0}, the newborn and seeded shape,
  only because the target cell was empty and held zeros. `Rules.NewbornsAreFresh` proves
  this for well-formed boards.
- The placement loops redraw while `!type == empty`. Because `!` binds
  first, this is the condition "the drawn cell is occupied".
  `Entities.RedrawGuard` evaluates it that way.
- Carnivores die at age 100. The constant CARNIVORE_MAXIMUM_AGE (80) and
  MAXIMUM_ENERGY (200) are declared in the program but never used.

## Model

| member | source | states |
|---|---|---|
| `Entities.Code` | src/main.cpp:47-52 | each kind's code is one character, and parsing it gives back the kind |
| `Entities.ParseCodeOnlyCodes` | src/main.cpp:47-52 | a string parses to a kind exactly when it is that kind's code, so `" "`, `"P"`, `"H"`, `"C"` are the only codes (`ParseCode` is the table's partial inverse, not the JSON library's decoder, which maps an unknown string to empty) |
| `Entities.CodesDistinct` | src/main.cpp:47-52 | different kinds have different codes |
| `Entities.RedrawGuard` | src/main.cpp:109 | the redraw condition holds exactly when the drawn cell is not empty (also lines 119 and 130) |
| `Entities.Offspring` | src/main.cpp:295-296 | the child has the parent's kind. A plant child (line 202) keeps the target's energy and age. A herbivore child keeps the target's age and has energy 100. A carnivore child (lines 434-436) is {carnivore, 100, 0}. On an empty target every child is {kind, 0 or 100, 0} |
| `Entities.Seeded` | src/main.cpp:113-136 | a placed entity has the requested kind and age 0. A plant keeps the cell's energy; an animal gets 100 |
| `Grid.Blank` | src/main.cpp:101-102 | the reset grid is 15×15 and every cell is {empty, 0, 0} |
| `Grid.CensusBlank` | src/main.cpp:101-102 | the reset grid holds 225 empty cells and no entity |
| `Grid.CensusPut` | src/main.cpp:113-114 | writing one cell lowers the count of its old kind by one, raises the count of its new kind by one, and keeps every other count |
| `Grid.CensusWitness` | src/main.cpp:109-112 | while an empty cell remains, the redraw loop has a cell to land on |
| `Grid.FreshBoardWellFormed` | src/main.cpp:100-137 | a grid of freshly reset or placed cells satisfies the per-cell invariant (empty cells hold zeros, ages from 0 to the age limit) |
| `Grid.PutWellFormed` | src/main.cpp:163-166 | writing a well-formed cell keeps the grid well formed |
| `Grid.NeighboursOfKindMembers` | src/main.cpp:220-262 | the prey list holds exactly the in-bounds orthogonal neighbours, in the given directions, that hold the kind |
| `Grid.EmptyNeighboursMembers` | src/main.cpp:173-195 | the candidate list holds exactly the in-bounds orthogonal neighbours that are empty |
| `Grid.NeighboursInOrder` | src/main.cpp:173-195 | candidates are listed in the inspection order down, up, right, left, with no duplicates |
| `Grid.Put` | src/main.cpp:163-166 | writing cell p sets it to the new cell, leaves every other cell unchanged and keeps the grid 15×15 |
| `Grid.NeighboursOfKind` | src/main.cpp:220-262 | the neighbours of p in the given directions that hold a kind, checked down, up, right, left: at most four (exact membership in `Grid.NeighboursOfKindMembers`, order in `Grid.NeighboursInOrder`) |
| `Grid.EmptyNeighbours` | src/main.cpp:173-195 | the candidate list of a spawn, reproduction or move: at most four entries (exact membership in `Grid.EmptyNeighboursMembers`) |
| `Grid.PutKeepsNeighbours` | src/main.cpp:169-195 | ageing the cell at p first does not change which neighbours are candidates or prey |
| `Rules.Spawn` | src/main.cpp:197-205 | the plant spawn as a function of the world; it keeps the grid 15×15 (what it writes and marks is in `Rules.SpawnEffect`) |
| `Rules.PlantRule` | src/main.cpp:161-207 | the plant rule as a function of the world; it keeps the grid 15×15 (its effect is in `Rules.PlantRuleEffect` and `Rules.PlantRuleLocal`) |
| `Rules.Reproduce` | src/main.cpp:265-300 | an animal's reproduction as a function of the world; it keeps the grid 15×15 (its effect is in `Rules.ReproduceEffect` and `Rules.ReproduceMarks`) |
| `Rules.Move` | src/main.cpp:304-343 | an animal's move as a function of the world; it keeps the grid 15×15 (its effect is in `Rules.MoveEffect` and `Rules.MoveMarks`) |
| `Rules.AnimalRule` | src/main.cpp:210-485 | the herbivore and carnivore rule as a function of the world; it keeps the grid 15×15 (its effect is in `Rules.AnimalRuleOutcome`, `Rules.AnimalRuleSurvivor`, `Rules.AnimalRuleLocal` and `Rules.AnimalRuleMarks`) |
| `Rules.Visit` | src/main.cpp:150-487 | the visit of one cell: skipped when marked, otherwise dispatched on the kind; it keeps the grid 15×15 (its effect is in `Rules.VisitEffect`) |
| `Rules.Scan` | src/main.cpp:148-490 | the row-major scan from (i, j) to the last cell; it has no contract of its own (its properties are `Rules.ScanSplit`, `Rules.ScanKeeps` and `Rules.MarkedCellSkipped`) |
| `Rules.Pick` | src/main.cpp:197-201 | the drawn position is one of the candidates |
| `Rules.SpawnEffect` | src/main.cpp:197-205 | with no empty neighbour nothing changes. Otherwise exactly one cell is appended to the acted-set: an empty neighbour, now holding the child. Every other cell is unchanged and well-formedness is kept |
| `Rules.PlantRuleEffect` | src/main.cpp:161-207 | a plant of age 10 becomes {empty, 0, 0} and nothing else changes. Otherwise it ages by one. A cell is marked exactly when the gate opens and an empty neighbour exists, and it holds the new plant. With no mark, no other cell changes |
| `Rules.PlantRuleLocal` | src/main.cpp:161-207 | the plant rule keeps the grid well formed, changes only p and its neighbours, and marks at most one neighbour |
| `Rules.EatAt` | src/main.cpp:220-228 | one eat attempt raises the eater's energy by the gain exactly when there is prey in that direction and the attempt succeeds |
| `Rules.EatAtFrame` | src/main.cpp:220-228 | the eaten neighbour becomes {empty, 0, 0}, and no other cell but the eater changes |
| `Rules.EatAtKeepsAlong` | src/main.cpp:220-262 | an eat attempt does not change what the attempts in other directions see |
| `Rules.KeptAlong` | src/main.cpp:220-262 | each of the four attempts sees its neighbour as it was before feeding began |
| `Rules.Feed` | src/main.cpp:220-262 | after the four attempts the eater has gained the gain once per prey neighbour in a succeeding direction |
| `Rules.FeedFrame` | src/main.cpp:220-262 | after the four attempts every eaten prey cell is {empty, 0, 0} and every other cell but the eater is unchanged |
| `Rules.FeedWellFormed` | src/main.cpp:220-262 | feeding keeps the grid well formed |
| `Rules.EarnedSum` | src/main.cpp:226-259 | energy earned from separate eat attempts adds up |
| `Rules.EarnedIsProduct` | src/main.cpp:226-259 | eating n prey earns exactly gain × n (30 per plant, 20 per herbivore) |
| `Rules.ReproduceEffect` | src/main.cpp:290-300 | with no empty neighbour nothing changes. Otherwise the child is written into one empty neighbour, which is marked, and the parent pays 10 energy. No other cell changes and well-formedness is kept |
| `Rules.ReproduceMarks` | src/main.cpp:264-301 | a reproduction marks at most one neighbour, which was empty, and empties no cell |
| `Rules.MoveEffect` | src/main.cpp:330-343 | with no empty neighbour nothing changes. Otherwise the animal, with 5 less energy and the same age, goes into one empty neighbour, which is marked. The old cell becomes {empty, 0, 0}, no other cell changes, and well-formedness is kept |
| `Rules.MoveMarks` | src/main.cpp:303-344 | a move marks at most its destination, an empty neighbour |
| `Rules.AfterEating` | src/main.cpp:217-262 | after ageing and eating, the animal has its kind, its age plus one, and its energy plus the gain for every prey eaten |
| `Rules.AfterEatingLocal` | src/main.cpp:220-262 | eating empties exactly the prey neighbours in succeeding directions and changes no other cell but the eater |
| `Rules.AfterEatingFrame` | src/main.cpp:220-262 | eating changes only p and its neighbours, keeps the grid well formed, and empties only prey cells |
| `Rules.CarnivoreEatsEveryNeighbour` | src/main.cpp:358-400 | after a surviving carnivore eats, none of its neighbours holds a herbivore |
| `Rules.AfterBreeding` | src/main.cpp:217-301 | after eating and reproducing, the animal still has its kind and is one year older |
| `Rules.AfterBreedingParent` | src/main.cpp:264-301 | the parent reproduces exactly when the gate opens, its energy after eating is at least 20, and an empty neighbour exists. It then adds one mark and pays 10 energy |
| `Rules.AfterBreedingLocal` | src/main.cpp:216-301 | ageing, eating and reproducing change only p and its neighbours and keep the grid well formed |
| `Rules.AfterBreedingMarks` | src/main.cpp:264-301 | up to reproduction, at most one neighbour is marked, and it was empty or prey; every cell empty afterwards was empty or prey |
| `Rules.AnimalRuleOutcome` | src/main.cpp:348-485 | an animal at its age limit (100 for carnivores, 50 for herbivores) or with energy ≤ 0 becomes {empty, 0, 0} and nothing else happens. A survivor adds one mark for a child and one for a move |
| `Rules.AnimalRuleSurvivor` | src/main.cpp:210-345 | a survivor ends one year older with energy = old energy + gains − 10 if it reproduced − 5 if it moved. It is at p, or at the move destination (a neighbour) with p empty |
| `Rules.AnimalRuleLocal` | src/main.cpp:210-345 | the animal rule changes only p and its neighbours and keeps the grid well formed |
| `Rules.AnimalRuleMarks` | src/main.cpp:210-345 | the animal rule marks at most two neighbours, each of which was empty or prey before the rule |
| `Rules.NewbornsAreFresh` | src/main.cpp:290-298 | on a well-formed grid a spawned plant is {plant, 0, 0} and a spawned animal is {kind, 100, 0} |
| `Rules.VisitEffect` | src/main.cpp:158-487 | a visit keeps the grid well formed, changes only p and its neighbours, and appends at most two neighbours to the acted-set. A marked or empty cell is left alone |
| `Rules.StepOrderly` | src/main.cpp:148-489 | the visit the tick applies keeps the grid's shape and well-formedness, only appends to the acted-set, and leaves a marked cell alone |
| `Rules.ScanKeeps` | src/main.cpp:148-490 | a scan of such visits keeps the shape and well-formedness of the grid and never removes a mark |
| `Rules.ScanUntilKeeps` | src/main.cpp:148-490 | a partial scan keeps the grid's shape and never removes a mark |
| `Rules.ScanSplit` | src/main.cpp:148-490 | the row-major scan from (i, j) is the scan up to any later cell followed by the scan from that cell |
| `Rules.MarkedCellSkipped` | src/main.cpp:150-159 | a cell marked before the scan reaches it stays marked, its visit changes nothing, and the scan passes over it. So a child or a moved animal is not processed again in the same tick |
| `Rules.Tick` | src/main.cpp:147-492 | a tick keeps the grid 15×15 and well formed and ends with an empty acted-set |
| `Simulation.Ecosystem.constructor` | src/main.cpp:62-64 | before the first start the grid and the acted-set are empty |
| `Simulation.Ecosystem.Write` | src/main.cpp:163-166 | overwriting one cell sets it and leaves every other cell unchanged |
| `Simulation.Ecosystem.WasActed` | src/main.cpp:151-156 | the linear search reports true exactly when the position is in the acted-set |
| `Simulation.Ecosystem.CollectEmptyNeighbours` | src/main.cpp:173-195 | the collected list is the candidate list: the empty in-bounds neighbours in the order down, up, right, left |
| `Simulation.Ecosystem.Spawn` | src/main.cpp:197-205 | the in-place spawn computes `Rules.Spawn` |
| `Simulation.Ecosystem.PlantRule` | src/main.cpp:161-207 | the in-place plant rule computes `Rules.PlantRule` |
| `Simulation.Ecosystem.Eat` | src/main.cpp:220-228 | one in-place eat attempt computes `Rules.EatAt` |
| `Simulation.Ecosystem.Feed` | src/main.cpp:220-262 | the four in-place eat attempts compute `Rules.Feed` |
| `Simulation.Ecosystem.Reproduce` | src/main.cpp:265-300 | the in-place reproduction computes `Rules.Reproduce` |
| `Simulation.Ecosystem.Move` | src/main.cpp:304-343 | the in-place move computes `Rules.Move` |
| `Simulation.Ecosystem.AnimalRule` | src/main.cpp:210-345 | the in-place herbivore or carnivore rule computes `Rules.AnimalRule` |
| `Simulation.Ecosystem.Visit` | src/main.cpp:150-487 | the in-place visit computes `Rules.Visit` |
| `Simulation.Ecosystem.ScanRow` | src/main.cpp:149-489 | visiting one row left to right is one row of `Rules.Scan` |
| `Simulation.Ecosystem.Tick` | src/main.cpp:147-492 | the in-place tick computes `Rules.Tick`, keeps the object invariant, and clears the acted-set |
| `Simulation.Ecosystem.Start` | src/main.cpp:92-137 | the request is accepted exactly when the total is at most 225, and a rejection leaves the grid unchanged. After acceptance the census is exactly the requested plants, herbivores and carnivores, with 225 − total empty cells. Every cell is fresh ({empty, 0, 0}, {plant, 0, 0} or {animal, 100, 0}) and the grid is well formed |
| `Simulation.Ecosystem.Reset` | src/main.cpp:100-102 | the reset grid is 15×15 with every cell {empty, 0, 0}: 225 empty cells and none of any other kind |
| `Simulation.Ecosystem.Place` | src/main.cpp:107-137 | placing count entities of a kind raises that kind's count by count and lowers the empty count by count. Other counts are kept and every cell stays fresh. Occupied cells keep their content, and every changed cell was {empty, 0, 0} and now holds the seeded entity |

## Left out

- The HTTP server, the static page and the request parsing are left out.
  The counts of a start request are parameters of `Start`.
- JSON serialisation is left out, apart from the code table of the entity
  kinds (`Entities.Code`). The output format of energy and age is not
  modelled.
- The random generator and the floating-point Bernoulli draws are left
  out. They become the oracle `Rules.Draws`, and a drawn index is taken
  modulo the candidate count. Which outcomes are likely is not modelled;
  every outcome is allowed.
- Rules.Spawn: its own ensures state only the grid's shape; what it writes and marks is stated in the lemmas named in its row, which keeps each proof small.
- Rules.PlantRule: its own ensures state only the grid's shape; what it writes and marks is stated in the lemmas named in its row, which keeps each proof small.
- Rules.Reproduce: its own ensures state only the grid's shape; what it writes and marks is stated in the lemmas named in its row, which keeps each proof small.
- Rules.Move: its own ensures state only the grid's shape; what it writes and marks is stated in the lemmas named in its row, which keeps each proof small.
- Rules.AnimalRule: its own ensures state only the grid's shape; what it writes and marks is stated in the lemmas named in its row, which keeps each proof small.
- Rules.Visit: its own ensures state only the grid's shape; what it writes and marks is stated in the lemmas named in its row, which keeps each proof small.
- Rules.Scan has no contract of its own; see `Rules.ScanKeeps`.
- Simulation.Ecosystem.Place: the redraw loop is modelled by a choice of
  some cell that passes the redraw condition. Which cell the generator
  would reach, and whether the loop terminates, are not modelled. A cell
  is always available once the total has been checked.
- The 32-bit unsigned sum of the request counts and the 32-bit signed
  energy and age are modelled as unbounded integers. Wrap-around of the
  sum, which would let an oversized request through, is not modelled.
- The concurrency of the server is left out: one tick runs to completion
  as one pass.
- `available_pos` is a global list in the program that each use clears
  after drawing from it, so it is always empty when the next list is
  built. The model builds a fresh local list each time instead.
- The grid is a nested vector that the program updates cell by cell. The
  model keeps it as a `seq<seq<Cell>>` field of the class rather than an
  `array2`, which gives value semantics and no aliasing between rows.
- Simulation.Ecosystem.Tick: requires a started 15×15 grid. A tick before
  the first start would index an empty vector in the program; that case
  is not modelled.
- The class's rule methods state only that they compute the `Rules`
  functions. The properties of each rule (frames, marks, energy,
  well-formedness) are stated and proved about those functions in `Rules`.
