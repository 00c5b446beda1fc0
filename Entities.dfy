/** Entity kinds, the cell record and the per-species constants of the
    predator–prey simulation. */
module Entities {

  /** Age at which a plant dies. */
  const PLANT_MAXIMUM_AGE: int := 10
  /** Age at which a herbivore dies. */
  const HERBIVORE_MAXIMUM_AGE: int := 50
  /** Age at which a carnivore dies: the death check uses the literal 100,
      not the declared (and otherwise unused) carnivore maximum age of 80. */
  const CARNIVORE_DEATH_AGE: int := 100
  /** Least energy, after eating, with which an animal may reproduce. */
  const THRESHOLD_ENERGY_FOR_REPRODUCTION: int := 20
  /** Energy of a newborn or freshly placed animal. */
  const OFFSPRING_ENERGY: int := 100
  /** Energy a parent animal pays for one offspring. */
  const REPRODUCTION_COST: int := 10
  /** Energy an animal pays for one move. */
  const MOVE_COST: int := 5
  /** Energy a herbivore gains per plant eaten. */
  const HERBIVORE_EAT_GAIN: int := 30
  /** Energy a carnivore gains per herbivore eaten. */
  const CARNIVORE_EAT_GAIN: int := 20

  datatype Kind = Empty | Plant | Herbivore | Carnivore

  /** The integer value of a kind in the enumeration, in declaration order. */
  function Ordinal(k: Kind): nat {
    match k
    case Empty => 0
    case Plant => 1
    case Herbivore => 2
    case Carnivore => 3
  }

  /** The redraw condition of the placement loops, `!type == empty`: the
      logical negation binds to the kind's integer value first (1 for empty,
      0 for any other kind) and that is compared with empty's value 0, so a
      redraw happens exactly when the drawn cell is occupied. */
  function RedrawGuard(k: Kind): (redraw: bool)
    ensures redraw <==> k != Empty
  {
    (if Ordinal(k) == 0 then 1 else 0) == Ordinal(Empty)
  }

  /** One grid cell: the kind of its occupant, its energy and its age. */
  datatype Cell = Cell(kind: Kind, energy: int, age: int)

  const EmptyCell: Cell := Cell(Empty, 0, 0)

  predicate IsAnimal(k: Kind) {
    k == Herbivore || k == Carnivore
  }

  /** The age at which an entity of kind k is removed by its rule. */
  function AgeLimit(k: Kind): int {
    match k
    case Empty => 0
    case Plant => PLANT_MAXIMUM_AGE
    case Herbivore => HERBIVORE_MAXIMUM_AGE
    case Carnivore => CARNIVORE_DEATH_AGE
  }

  /** What an animal of kind k eats. */
  function Prey(k: Kind): Kind
    requires IsAnimal(k)
  {
    if k == Herbivore then Plant else Herbivore
  }

  /** Energy an animal of kind k gains per prey eaten. */
  function Gain(k: Kind): int
    requires IsAnimal(k)
  {
    if k == Herbivore then HERBIVORE_EAT_GAIN else CARNIVORE_EAT_GAIN
  }

  /** The per-cell invariant of the simulation: an empty cell holds zeros,
      a plant holds no energy, and every age lies between 0 and the kind's
      age limit. Energy of an animal is unconstrained (it may be negative
      until the next death check). */
  predicate WellFormed(c: Cell) {
    && 0 <= c.age <= AgeLimit(c.kind)
    && (c.kind == Empty || c.kind == Plant ==> c.energy == 0)
  }

  lemma EmptyWellFormed(c: Cell)
    ensures c.kind == Empty ==> (WellFormed(c) <==> c == EmptyCell)
  {
  }

  /** The cell a reproduction writes into its target: a plant sets only
      the kind, a herbivore sets kind and energy, a carnivore sets all
      three fields. The first two rely on the target holding zeros. */
  function Offspring(k: Kind, target: Cell): (c: Cell)
    requires k != Empty
    ensures c.kind == k
    ensures target == EmptyCell ==>
              c == Cell(k, if k == Plant then 0 else OFFSPRING_ENERGY, 0)
    ensures k == Plant ==> c.energy == target.energy && c.age == target.age
    ensures k == Herbivore ==> c.energy == OFFSPRING_ENERGY && c.age == target.age
  {
    if k == Plant then target.(kind := Plant)
    else if k == Herbivore then target.(kind := Herbivore, energy := OFFSPRING_ENERGY)
    else Cell(k, OFFSPRING_ENERGY, 0)
  }

  /** The cell an initial placement writes: kind and age 0 for a plant,
      and energy 100 as well for an animal. */
  function Seeded(k: Kind, target: Cell): (c: Cell)
    requires k != Empty
    ensures c.kind == k && c.age == 0
    ensures k == Plant ==> c.energy == target.energy
    ensures k != Plant ==> c.energy == OFFSPRING_ENERGY
  {
    if k == Plant then target.(kind := Plant, age := 0)
    else target.(kind := k, age := 0, energy := OFFSPRING_ENERGY)
  }

  /** A cell as it looks right after initialisation. */
  predicate Fresh(c: Cell) {
    c == EmptyCell || c == Cell(Plant, 0, 0)
    || c == Cell(Herbivore, OFFSPRING_ENERGY, 0) || c == Cell(Carnivore, OFFSPRING_ENERGY, 0)
  }

  datatype Option<T> = None | Some(value: T)

  /** The one-character code a kind is serialised as. */
  function Code(k: Kind): (s: string)
    ensures |s| == 1
    ensures ParseCode(s) == Some(k)
  {
    match k
    case Empty => " "
    case Plant => "P"
    case Herbivore => "H"
    case Carnivore => "C"
  }

  /** The kind a code stands for, if any: the partial inverse of the code
      table, used to state that the table is a bijection. It is not the
      decoder the JSON library derives from the same table, which maps an
      unknown string to the first entry, empty; the program never decodes
      kinds, so that decoder is not modelled. */
  function ParseCode(s: string): (r: Option<Kind>)
  {
    if s == " " then Some(Empty)
    else if s == "P" then Some(Plant)
    else if s == "H" then Some(Herbivore)
    else if s == "C" then Some(Carnivore)
    else None
  }

  /** Parsing accepts exactly the four codes, so the code table is a bijection. */
  lemma ParseCodeOnlyCodes(s: string, k: Kind)
    ensures ParseCode(s) == Some(k) <==> s == Code(k)
  {
  }

  lemma CodesDistinct(a: Kind, b: Kind)
    ensures Code(a) == Code(b) ==> a == b
  {
    assert ParseCode(Code(a)) == Some(a);
  }
}
