/** The 15×15 board as a value: positions, cell access and update,
    orthogonal neighbours and a census of cells by kind. */
module Grid {
  import opened Entities

  /** Number of rows, and of columns. */
  const N: nat := 15

  datatype Pos = Pos(row: nat, col: nat)

  predicate InBounds(p: Pos) {
    p.row < N && p.col < N
  }

  /** The grid, row by row. */
  type Board = seq<seq<Cell>>

  predicate Shaped(b: Board) {
    |b| == N && forall r :: 0 <= r < |b| ==> |b[r]| == N
  }

  function At(b: Board, p: Pos): Cell
    requires Shaped(b) && InBounds(p)
  {
    b[p.row][p.col]
  }

  /** The board with cell p replaced by c. */
  function Put(b: Board, p: Pos, c: Cell): (r: Board)
    requires Shaped(b) && InBounds(p)
    ensures Shaped(r)
    ensures At(r, p) == c
    ensures forall q :: InBounds(q) && q != p ==> At(r, q) == At(b, q)
  {
    b[p.row := b[p.row][p.col := c]]
  }

  /** The board after a reset: every cell {empty, 0, 0}. */
  function Blank(): (b: Board)
    ensures Shaped(b)
    ensures forall p :: InBounds(p) ==> At(b, p) == EmptyCell
  {
    seq(N, _ => seq(N, _ => EmptyCell))
  }

  /** Every cell of the board keeps the per-cell invariant. */
  ghost predicate BoardWellFormed(b: Board)
    requires Shaped(b)
  {
    forall p :: InBounds(p) ==> WellFormed(At(b, p))
  }

  /** Writing a well-formed cell keeps a well-formed board well formed. */
  lemma PutWellFormed(b: Board, p: Pos, c: Cell)
    requires Shaped(b) && InBounds(p) && BoardWellFormed(b) && WellFormed(c)
    ensures BoardWellFormed(Put(b, p, c))
  {
  }

  /** A board of freshly initialised cells keeps the per-cell invariant. */
  lemma FreshBoardWellFormed(b: Board)
    requires Shaped(b) && forall p :: InBounds(p) ==> Fresh(At(b, p))
    ensures BoardWellFormed(b)
  {
  }

  /** The four directions, in the order the rules inspect them. */
  datatype Dir = Down | Up | Right | Left

  const AllDirs: set<Dir> := {Down, Up, Right, Left}

  /** The bounds guard of each direction. */
  predicate HasNeighbour(p: Pos, d: Dir) {
    match d
    case Down => p.row + 1 < N
    case Up => p.row > 0
    case Right => p.col + 1 < N
    case Left => p.col > 0
  }

  function Toward(p: Pos, d: Dir): (q: Pos)
    requires InBounds(p) && HasNeighbour(p, d)
    ensures InBounds(q) && Adjacent(p, q) && DirOf(p, q) == d
  {
    match d
    case Down => Pos(p.row + 1, p.col)
    case Up => Pos(p.row - 1, p.col)
    case Right => Pos(p.row, p.col + 1)
    case Left => Pos(p.row, p.col - 1)
  }

  /** p and q share an edge. */
  predicate Adjacent(p: Pos, q: Pos) {
    || (p.col == q.col && (q.row == p.row + 1 || q.row + 1 == p.row))
    || (p.row == q.row && (q.col == p.col + 1 || q.col + 1 == p.col))
  }

  /** p is q or one of q's orthogonal neighbours. */
  predicate Near(p: Pos, q: Pos) {
    p == q || Adjacent(p, q)
  }

  /** The direction in which q lies from p. */
  function DirOf(p: Pos, q: Pos): Dir
    requires Adjacent(p, q)
  {
    if q.row == p.row + 1 then Down
    else if q.row + 1 == p.row then Up
    else if q.col == p.col + 1 then Right
    else Left
  }

  /** Position of a direction in the inspection order down, up, right, left. */
  function Rank(d: Dir): nat {
    match d
    case Down => 0
    case Up => 1
    case Right => 2
    case Left => 3
  }

  lemma DirOfToward(p: Pos, q: Pos)
    requires InBounds(p) && InBounds(q) && Adjacent(p, q)
    ensures HasNeighbour(p, DirOf(p, q)) && Toward(p, DirOf(p, q)) == q
  {
  }

  /** The neighbour in direction d, as a list of zero or one position: present
      when d is among dirs, the bounds guard holds and it holds a k. */
  function Along(b: Board, p: Pos, k: Kind, dirs: set<Dir>, d: Dir): seq<Pos>
    requires Shaped(b) && InBounds(p)
  {
    if d in dirs && HasNeighbour(p, d) && At(b, Toward(p, d)).kind == k then [Toward(p, d)] else []
  }

  /** The in-bounds orthogonal neighbours of p in the given directions that
      hold a k, in the order down, up, right, left. */
  function NeighboursOfKind(b: Board, p: Pos, k: Kind, dirs: set<Dir>): (r: seq<Pos>)
    requires Shaped(b) && InBounds(p)
    ensures |r| <= 4
  {
    Along(b, p, k, dirs, Down) + Along(b, p, k, dirs, Up)
      + Along(b, p, k, dirs, Right) + Along(b, p, k, dirs, Left)
  }

  /** The list holds exactly the in-bounds orthogonal neighbours of p, in
      the given directions, that hold a k. */
  lemma NeighboursOfKindMembers(b: Board, p: Pos, k: Kind, dirs: set<Dir>)
    requires Shaped(b) && InBounds(p)
    ensures forall q :: q in NeighboursOfKind(b, p, k, dirs) <==>
      InBounds(q) && Adjacent(p, q) && DirOf(p, q) in dirs && At(b, q).kind == k
  {
    forall q | InBounds(q) && Adjacent(p, q) && DirOf(p, q) in dirs && At(b, q).kind == k
      ensures q in NeighboursOfKind(b, p, k, dirs)
    {
      DirOfToward(p, q);
    }
  }

  /** Overwriting p itself does not change which of its neighbours hold a k. */
  lemma PutKeepsNeighbours(b: Board, p: Pos, c: Cell, k: Kind, dirs: set<Dir>)
    requires Shaped(b) && InBounds(p)
    ensures NeighboursOfKind(Put(b, p, c), p, k, dirs) == NeighboursOfKind(b, p, k, dirs)
  {
    assert forall d :: Along(Put(b, p, c), p, k, dirs, d) == Along(b, p, k, dirs, d);
  }

  /** The neighbours in r are listed in strictly increasing direction rank. */
  predicate InOrder(p: Pos, r: seq<Pos>) {
    forall x, y :: 0 <= x < y < |r| ==>
      Adjacent(p, r[x]) && Adjacent(p, r[y]) && Rank(DirOf(p, r[x])) < Rank(DirOf(p, r[y]))
  }

  /** Appending the neighbour in a direction ranked after every entry keeps
      the list in order. */
  lemma AppendAlong(b: Board, p: Pos, k: Kind, dirs: set<Dir>, d: Dir, r: seq<Pos>)
    requires Shaped(b) && InBounds(p) && InOrder(p, r)
    requires forall x :: 0 <= x < |r| ==> Adjacent(p, r[x]) && Rank(DirOf(p, r[x])) < Rank(d)
    ensures var r' := r + Along(b, p, k, dirs, d);
      && InOrder(p, r')
      && forall x :: 0 <= x < |r'| ==> Adjacent(p, r'[x]) && Rank(DirOf(p, r'[x])) <= Rank(d)
  {
  }

  /** The neighbours are listed in the inspection order down, up, right, left. */
  lemma NeighboursInOrder(b: Board, p: Pos, k: Kind, dirs: set<Dir>)
    requires Shaped(b) && InBounds(p)
    ensures InOrder(p, NeighboursOfKind(b, p, k, dirs))
  {
    var down := Along(b, p, k, dirs, Down);
    AppendAlong(b, p, k, dirs, Down, []);
    assert [] + down == down;
    AppendAlong(b, p, k, dirs, Up, down);
    var up := down + Along(b, p, k, dirs, Up);
    AppendAlong(b, p, k, dirs, Right, up);
    var right := up + Along(b, p, k, dirs, Right);
    AppendAlong(b, p, k, dirs, Left, right);
  }

  /** The candidate-destination list of a reproduction or a move. */
  function EmptyNeighbours(b: Board, p: Pos): (r: seq<Pos>)
    requires Shaped(b) && InBounds(p)
    ensures |r| <= 4
  {
    NeighboursOfKind(b, p, Empty, AllDirs)
  }

  /** The candidates are exactly the empty in-bounds orthogonal neighbours. */
  lemma EmptyNeighboursMembers(b: Board, p: Pos)
    requires Shaped(b) && InBounds(p)
    ensures forall q :: q in EmptyNeighbours(b, p) <==> InBounds(q) && Adjacent(p, q) && At(b, q).kind == Empty
  {
    NeighboursOfKindMembers(b, p, Empty, AllDirs);
  }

  /** 1 if the cell holds a k, else 0. */
  function Tally(c: Cell, k: Kind): nat {
    if c.kind == k then 1 else 0
  }

  /** Number of cells of kind k in one row. */
  function CountRow(row: seq<Cell>, k: Kind): nat {
    if row == [] then 0 else Tally(row[0], k) + CountRow(row[1..], k)
  }

  /** Number of cells of kind k on the board. */
  function Census(rows: seq<seq<Cell>>, k: Kind): nat {
    if rows == [] then 0 else CountRow(rows[0], k) + Census(rows[1..], k)
  }

  lemma {:induction false} CountRowUpdate(row: seq<Cell>, j: nat, c: Cell, k: Kind)
    requires j < |row|
    ensures CountRow(row[j := c], k) + Tally(row[j], k) == CountRow(row, k) + Tally(c, k)
  {
    if j > 0 {
      assert row[j := c][1..] == row[1..][j - 1 := c];
      CountRowUpdate(row[1..], j - 1, c, k);
    } else {
      assert row[j := c][1..] == row[1..];
    }
  }

  lemma {:induction false} CensusUpdate(rows: seq<seq<Cell>>, i: nat, j: nat, c: Cell, k: Kind)
    requires i < |rows| && j < |rows[i]|
    ensures Census(rows[i := rows[i][j := c]], k) + Tally(rows[i][j], k)
         == Census(rows, k) + Tally(c, k)
  {
    var rows' := rows[i := rows[i][j := c]];
    if i > 0 {
      assert rows'[1..] == rows[1..][i - 1 := rows[1..][i - 1][j := c]];
      CensusUpdate(rows[1..], i - 1, j, c, k);
    } else {
      assert rows'[1..] == rows[1..];
      CountRowUpdate(rows[0], j, c, k);
    }
  }

  /** Writing one cell moves its old kind's count down by one and the new
      kind's count up by one; every other count stays. */
  lemma CensusPut(b: Board, p: Pos, c: Cell, k: Kind)
    requires Shaped(b) && InBounds(p)
    ensures Census(Put(b, p, c), k) + Tally(At(b, p), k) == Census(b, k) + Tally(c, k)
  {
    CensusUpdate(b, p.row, p.col, c, k);
  }

  lemma {:induction false} CountRowUniform(row: seq<Cell>, c: Cell, k: Kind)
    requires forall x :: 0 <= x < |row| ==> row[x] == c
    ensures CountRow(row, k) == if c.kind == k then |row| else 0
  {
    if row != [] {
      CountRowUniform(row[1..], c, k);
    }
  }

  lemma {:induction false} CensusUniform(rows: seq<seq<Cell>>, c: Cell, k: Kind)
    requires forall x :: 0 <= x < |rows| ==> |rows[x]| == N
    requires forall x, y :: 0 <= x < |rows| && 0 <= y < |rows[x]| ==> rows[x][y] == c
    ensures Census(rows, k) == if c.kind == k then N * |rows| else 0
  {
    if rows != [] {
      CountRowUniform(rows[0], c, k);
      CensusUniform(rows[1..], c, k);
    }
  }

  /** A blank board holds N*N empty cells and nothing else. */
  lemma CensusBlank(k: Kind)
    ensures Census(Blank(), k) == if k == Empty then N * N else 0
  {
    CensusUniform(Blank(), EmptyCell, k);
  }

  /** A positive count has a witness. */
  lemma {:induction false} CensusWitness(rows: seq<seq<Cell>>, k: Kind)
    requires Census(rows, k) > 0
    ensures exists x, y :: 0 <= x < |rows| && 0 <= y < |rows[x]| && rows[x][y].kind == k
  {
    if CountRow(rows[0], k) > 0 {
      RowWitness(rows[0], k);
      var y :| 0 <= y < |rows[0]| && rows[0][y].kind == k;
      assert rows[0][y].kind == k;
    } else {
      CensusWitness(rows[1..], k);
      var x, y :| 0 <= x < |rows[1..]| && 0 <= y < |rows[1..][x]| && rows[1..][x][y].kind == k;
      assert rows[x + 1][y].kind == k;
    }
  }

  lemma {:induction false} RowWitness(row: seq<Cell>, k: Kind)
    requires CountRow(row, k) > 0
    ensures exists y :: 0 <= y < |row| && row[y].kind == k
  {
    if row[0].kind != k {
      RowWitness(row[1..], k);
      var y :| 0 <= y < |row[1..]| && row[1..][y].kind == k;
      assert row[y + 1].kind == k;
    }
  }
}
