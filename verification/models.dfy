/** A candidate arrangement of puzzle pieces (`Individual` in solver/models.py): the pieces
    in row-major order over a `rows` x `columns` grid, a map from piece id to position, and
    a fitness that is unset until something computes it. */
module Models {
  import opened Wrappers
  import PySeq

  /** A puzzle piece, reduced to the identifier that tracks it across individuals. */
  datatype Piece = Piece(id: int)

  /** Python's `KeyError`, raised when a piece id is not in the arrangement. */
  datatype Error = KeyError

  datatype Individual = Individual(
    pieces: seq<Piece>,
    rows: int,
    columns: int,
    fitness: Option<int>,
    pieceMapping: map<int, nat>)

  function Ids(pieces: seq<Piece>): set<int> {
    set p | p in pieces :: p.id
  }

  /** No element occurs twice; for pieces, which are their ids, no id occurs twice. */
  ghost predicate Distinct<T>(s: seq<T>) {
    forall i, j :: 0 <= i < j < |s| ==> s[i] != s[j]
  }

  /** The pieces fill a grid of `rows` full rows of `columns` pieces each. */
  predicate Grid(ind: Individual) {
    ind.columns > 0 && ind.rows >= 0 && |ind.pieces| == ind.rows * ind.columns
  }

  /** The invariant every individual keeps: a full grid, and an id map that sends every id
      present, and nothing else, to a position holding it (as the map built by `IdMap` does). */
  ghost predicate WellFormed(ind: Individual) {
    Grid(ind) && Locates(ind.pieceMapping, ind.pieces)
  }

  ghost predicate Locates(m: map<int, nat>, pieces: seq<Piece>) {
    && m.Keys == Ids(pieces)
    && forall x :: x in m ==> m[x] < |pieces| && pieces[m[x]].id == x
  }

  /** The id-to-index map built by the dict comprehension over `enumerate(pieces)`: a later
      index overwrites an earlier one, so an id maps to its last position. */
  function IdMap(pieces: seq<Piece>): (m: map<int, nat>)
    ensures Locates(m, pieces)
    ensures forall x, j :: x in m && m[x] < j < |pieces| ==> pieces[j].id != x
    decreases |pieces|
  {
    if pieces == [] then map[]
    else
      var n := |pieces| - 1;
      var front := pieces[..n];
      var last := pieces[n].id;
      var m0 := IdMap(front);
      IdMapAppend(front, pieces[n], m0);
      assert pieces == front + [pieces[n]];
      m0[last := n]
  }

  /** Appending a piece: its id now maps to the new last position, every other id keeps its entry. */
  lemma IdMapAppend(front: seq<Piece>, p: Piece, m0: map<int, nat>)
    requires Locates(m0, front)
    requires forall x, j :: x in m0 && m0[x] < j < |front| ==> front[j].id != x
    ensures var pieces, m := front + [p], m0[p.id := |front|];
      && Locates(m, pieces)
      && forall x, j :: x in m && m[x] < j < |pieces| ==> pieces[j].id != x
  {
    var pieces, m := front + [p], m0[p.id := |front|];
    assert Ids(pieces) == Ids(front) + {p.id} by {
      forall x | x in Ids(pieces)
        ensures x in Ids(front) + {p.id}
      {
        var q :| q in pieces && q.id == x;
        if q != p {
          assert q in front;
        }
      }
    }
    forall x | x in m
      ensures m[x] < |pieces| && pieces[m[x]].id == x
    {
      if x != p.id {
        assert pieces[m0[x]] == front[m0[x]];
      }
    }
  }

  /** With unique ids the map inverts the arrangement: the id at position `i` maps back to `i`. */
  lemma LocatesInverts(m: map<int, nat>, pieces: seq<Piece>)
    requires Locates(m, pieces) && Distinct(pieces)
    ensures forall i :: 0 <= i < |pieces| ==> pieces[i].id in m && m[pieces[i].id] == i
  {
    forall i | 0 <= i < |pieces|
      ensures pieces[i].id in m && m[pieces[i].id] == i
    {
      assert pieces[i] in pieces;
    }
  }

  // ---------------------------------------------------------------- construction

  function Swap<T>(s: seq<T>, i: nat, j: nat): (r: seq<T>)
    requires i < |s| && j < |s|
    ensures |r| == |s|
    ensures multiset(r) == multiset(s)
    ensures Distinct(s) ==> Distinct(r)
  {
    var r := s[i := s[j]][j := s[i]];
    assert forall k :: 0 <= k < |s| ==> r[k] == (if k == j then s[i] else if k == i then s[j] else s[k]);
    r
  }

  /** The random draws numpy's Fisher-Yates shuffle makes on a list of length `n`: one per
      position `i` from `n - 1` down to `1`, each in `0..i`. */
  ghost predicate ValidDraws(n: nat, draws: seq<nat>) {
    && |draws| == (if n == 0 then 0 else n - 1)
    && forall k :: 0 <= k < |draws| ==> draws[k] <= n - 1 - k
  }

  /** The shuffle steps from position `top` down: swap `s[top]` with `s[draws[0]]`, continue below. */
  function ShuffleFrom<T>(s: seq<T>, top: nat, draws: seq<nat>): (r: seq<T>)
    requires top < |s| && |draws| <= top
    requires forall k :: 0 <= k < |draws| ==> draws[k] <= top - k
    ensures |r| == |s|
    ensures multiset(r) == multiset(s)
    ensures Distinct(s) ==> Distinct(r)
    decreases |draws|
  {
    if draws == [] then s
    else ShuffleFrom(Swap(s, top, draws[0]), top - 1, draws[1..])
  }

  /** `np.random.shuffle`, with its random draws supplied by the caller. */
  function Shuffle<T>(s: seq<T>, draws: seq<nat>): (r: seq<T>)
    requires ValidDraws(|s|, draws)
    ensures |r| == |s|
    ensures multiset(r) == multiset(s)
    ensures Distinct(s) ==> Distinct(r)
  {
    if s == [] then s else ShuffleFrom(s, |s| - 1, draws)
  }

  /** `Individual(pieces, rows, columns, shuffle)`: a copy of the pieces, shuffled when asked,
      with the id map rebuilt from the result and no fitness yet. */
  function NewIndividual(pieces: seq<Piece>, rows: int, columns: int, shuffle: bool, draws: seq<nat>): (ind: Individual)
    requires shuffle ==> ValidDraws(|pieces|, draws)
    ensures ind.fitness == None
    ensures ind.rows == rows && ind.columns == columns
    ensures multiset(ind.pieces) == multiset(pieces)
    ensures !shuffle ==> ind.pieces == pieces
    ensures Distinct(pieces) ==> Distinct(ind.pieces)
    ensures ind.pieceMapping == IdMap(ind.pieces)
    ensures columns > 0 && rows >= 0 && |pieces| == rows * columns ==> WellFormed(ind)
  {
    var arranged := if shuffle then Shuffle(pieces, draws) else pieces;
    Individual(arranged, rows, columns, None, IdMap(arranged))
  }

  // ---------------------------------------------------------------- grid addressing

  lemma CellInGrid(r: int, c: int, rows: int, columns: int)
    requires 0 <= r < rows && 0 <= c < columns
    ensures 0 <= r * columns + c < rows * columns
    ensures (r * columns + c) / columns == r && (r * columns + c) % columns == c
  {
    assert r * columns + c < (r + 1) * columns;
    MulMono(r + 1, rows, columns);
    DivModUnique(r * columns + c, columns, r, c);
  }

  lemma MulMono(a: int, b: int, c: int)
    requires 0 <= a <= b && c >= 0
    ensures a * c <= b * c
  {
    assert b * c == a * c + (b - a) * c;
  }

  lemma DivModUnique(i: int, c: int, q: int, m: int)
    requires c > 0 && 0 <= m < c && i == q * c + m
    ensures i / c == q && i % c == m
  {
    var q', m' := i / c, i % c;
    assert i == q' * c + m';
    if q' > q {
      MulMono(q + 1, q', c);
      assert false;
    } else if q' < q {
      MulMono(q' + 1, q, c);
      assert false;
    }
  }

  /** The row and column of a position in the grid. */
  lemma PositionInGrid(i: int, rows: int, columns: int)
    requires columns > 0 && 0 <= i < rows * columns
    ensures 0 <= i / columns < rows && 0 <= i % columns < columns
    ensures i == (i / columns) * columns + i % columns
  {
    var q := i / columns;
    if q >= rows {
      MulMono(rows, q, columns);
      assert false;
    }
  }

  /** The piece in row `r`, column `c`. */
  function At(ind: Individual, r: int, c: int): Piece
    requires Grid(ind) && 0 <= r < ind.rows && 0 <= c < ind.columns
  {
    CellInGrid(r, c, ind.rows, ind.columns);
    ind.pieces[r * ind.columns + c]
  }

  lemma RowSlice(ind: Individual, r: int)
    requires Grid(ind) && 0 <= r < ind.rows
    ensures 0 <= r * ind.columns && (r + 1) * ind.columns <= |ind.pieces|
  {
    MulMono(r + 1, ind.rows, ind.columns);
  }

  /** `self[key]`: the slice `pieces[key*columns : (key+1)*columns]`, with Python's treatment
      of negative and out-of-range bounds. */
  function Row(ind: Individual, key: int): (row: seq<Piece>)
    ensures Grid(ind) && 0 <= key < ind.rows ==>
      |row| == ind.columns && forall c :: 0 <= c < ind.columns ==> row[c] == At(ind, key, c)
    ensures Grid(ind) && -ind.rows <= key <= -2 ==>
      |row| == ind.columns && forall c :: 0 <= c < ind.columns ==> row[c] == At(ind, ind.rows + key, c)
    ensures Grid(ind) && (key >= ind.rows || key == -1 || key < -ind.rows) ==> row == []
  {
    var row := PySeq.Slice(ind.pieces, key * ind.columns, (key + 1) * ind.columns);
    if !Grid(ind) then row
    else if 0 <= key < ind.rows then RowInRange(ind, key, key); row
    else if -ind.rows <= key <= -2 then RowInRange(ind, key, ind.rows + key); row
    else RowOutOfRange(ind, key); row
  }

  /** Slicing for `key` lands on the grid's row `r`. */
  lemma RowInRange(ind: Individual, key: int, r: int)
    requires Grid(ind) && 0 <= r < ind.rows
    requires r == key || (key <= -2 && r == ind.rows + key)
    ensures 0 <= r * ind.columns <= (r + 1) * ind.columns <= |ind.pieces|
    ensures var row := PySeq.Slice(ind.pieces, key * ind.columns, (key + 1) * ind.columns);
      && row == ind.pieces[r * ind.columns..(r + 1) * ind.columns]
      && |row| == ind.columns && forall c :: 0 <= c < ind.columns ==> row[c] == At(ind, r, c)
  {
    var c, n := ind.columns, |ind.pieces|;
    var start, stop := key * c, (key + 1) * c;
    var a, b := PySeq.SliceBound(start, n), PySeq.SliceBound(stop, n);
    RowSlice(ind, r);
    assert (r + 1) * c == r * c + c;
    if r == key {
      assert stop == start + c;
      assert a == r * c && b == (r + 1) * c;
    } else {
      assert start + n == r * c by {
        assert r * c == ind.rows * c + key * c;
      }
      assert stop + n == (r + 1) * c by {
        assert (r + 1) * c == ind.rows * c + (key + 1) * c;
      }
      assert stop < 0 by {
        MulMono(1, -(key + 1), c);
        assert -(key + 1) * c == -stop;
      }
      assert a == r * c && b == (r + 1) * c;
    }
    var row := PySeq.Slice(ind.pieces, start, stop);
    assert row == ind.pieces[r * c..(r + 1) * c];
  }

  /** Slicing for a `key` off the grid, or for `-1`, gives nothing. */
  lemma RowOutOfRange(ind: Individual, key: int)
    requires Grid(ind)
    requires key >= ind.rows || key == -1 || key < -ind.rows
    ensures PySeq.Slice(ind.pieces, key * ind.columns, (key + 1) * ind.columns) == []
  {
    var c, n := ind.columns, |ind.pieces|;
    var start, stop := key * c, (key + 1) * c;
    var a, b := PySeq.SliceBound(start, n), PySeq.SliceBound(stop, n);
    if key >= ind.rows {
      MulMono(ind.rows, key, c);
      assert a == n;
    } else if key == -1 {
      assert b == 0;
    } else {
      MulMono(ind.rows, -(key + 1), c);
      assert -(key + 1) * c == -stop;
      assert b == 0;
    }
  }

  /** The concatenation of rows `0..k` in order. */
  function RowsUpTo(ind: Individual, k: nat): seq<Piece> {
    if k == 0 then [] else RowsUpTo(ind, k - 1) + Row(ind, k - 1)
  }

  /** Row `r` of the grid is the `r`-th run of `columns` pieces. */
  lemma RowIsSlice(ind: Individual, r: int)
    requires Grid(ind) && 0 <= r < ind.rows
    ensures 0 <= r * ind.columns <= (r + 1) * ind.columns <= |ind.pieces|
    ensures Row(ind, r) == ind.pieces[r * ind.columns..(r + 1) * ind.columns]
  {
    RowInRange(ind, r, r);
  }

  /** Reading the rows one after another gives back the row-major list of pieces. */
  lemma {:induction false} RowsRebuildPieces(ind: Individual, k: nat)
    requires Grid(ind) && k <= ind.rows
    ensures 0 <= k * ind.columns <= |ind.pieces|
    ensures RowsUpTo(ind, k) == ind.pieces[..k * ind.columns]
  {
    MulMono(k, ind.rows, ind.columns);
    if k > 0 {
      var c, p := ind.columns, k - 1;
      RowsRebuildPieces(ind, p);
      RowIsSlice(ind, p);
      assert (p + 1) * c == k * c;
      assert ind.pieces[..k * c] == ind.pieces[..p * c] + ind.pieces[p * c..k * c];
    }
  }

  // ---------------------------------------------------------------- lookups

  /** `piece_by_id(identifier)`: the piece with that id, or the `KeyError` the map lookup raises. */
  function PieceById(ind: Individual, identifier: int): (r: Result<Piece, Error>)
    requires Locates(ind.pieceMapping, ind.pieces)
    ensures r.Success? <==> identifier in Ids(ind.pieces)
    ensures r.Success? ==> r.value.id == identifier && r.value in ind.pieces
    ensures Distinct(ind.pieces) ==>
      forall i :: 0 <= i < |ind.pieces| && ind.pieces[i].id == identifier ==> r == Success(ind.pieces[i])
  {
    if identifier in ind.pieceMapping then Success(ind.pieces[ind.pieceMapping[identifier]])
    else Failure(KeyError)
  }

  /** Index arithmetic `edge` uses, restated in rows and columns. */
  lemma NeighbourIndices(i: int, rows: int, columns: int)
    requires columns > 0 && 0 <= i < rows * columns
    ensures 0 <= i / columns < rows && 0 <= i % columns < columns
    ensures var row, col := i / columns, i % columns;
      && i == row * columns + col
      && (i >= columns <==> row > 0)
      && (i < (rows - 1) * columns <==> row < rows - 1)
      && i - columns == (row - 1) * columns + col
      && i + columns == (row + 1) * columns + col
  {
    PositionInGrid(i, rows, columns);
    var row, col := i / columns, i % columns;
    assert (row - 1) * columns == row * columns - columns;
    assert (row + 1) * columns == row * columns + columns;
    if row > 0 {
      MulMono(1, row, columns);
    }
    if row < rows - 1 {
      MulMono(row + 1, rows - 1, columns);
    } else {
      MulMono(rows - 1, row, columns);
    }
  }

  /** The four sides `edge` knows, named "T", "R", "D" and "L" by the caller. */
  datatype Direction = Top | Right | Down | Left {
    /** The step to the neighbouring cell: rows down, columns right. */
    function Offset(): (int, int) {
      match this
      case Top => (-1, 0)
      case Right => (0, 1)
      case Down => (1, 0)
      case Left => (0, -1)
    }
  }

  /** The side an orientation string names; `None` for any string `edge` does not test for. */
  function Side(orientation: string): (d: Option<Direction>)
    ensures d == Some(Top) <==> orientation == "T"
    ensures d == Some(Right) <==> orientation == "R"
    ensures d == Some(Down) <==> orientation == "D"
    ensures d == Some(Left) <==> orientation == "L"
  {
    if orientation == "T" then Some(Top)
    else if orientation == "R" then Some(Right)
    else if orientation == "D" then Some(Down)
    else if orientation == "L" then Some(Left)
    else None
  }

  /** The position of row `r`, column `c`, or `None` when that cell is off the grid. */
  function Cell(r: int, c: int, rows: int, columns: int): Option<int> {
    if 0 <= r < rows && 0 <= c < columns then Some(r * columns + c) else None
  }

  /** The position `edge` reads from position `i` towards side `d`, or `None` where its test
      fails; restated as the neighbouring cell in the grid. */
  function NeighbourIndex(i: int, rows: int, columns: int, d: Direction): (j: Option<int>)
    requires columns > 0 && 0 <= i < rows * columns
    ensures j.Some? ==> 0 <= j.value < rows * columns
    ensures j == Cell(i / columns + d.Offset().0, i % columns + d.Offset().1, rows, columns)
  {
    NeighbourIndices(i, rows, columns);
    match d
    case Top => if i >= columns then Some(i - columns) else None
    case Right => if i % columns < columns - 1 then Some(i + 1) else None
    case Down => if i < (rows - 1) * columns then Some(i + columns) else None
    case Left => if i % columns > 0 then Some(i - 1) else None
  }

  /** The id of the piece at row `r`, column `c`, or `None` when that cell is off the grid. */
  function PieceAt(ind: Individual, r: int, c: int): Option<int>
    requires Grid(ind)
  {
    match Cell(r, c, ind.rows, ind.columns)
    case None => None
    case Some(j) =>
      CellInGrid(r, c, ind.rows, ind.columns);
      Some(ind.pieces[j].id)
  }

  /** A piece in the arrangement sits in the cell its position names. */
  lemma OwnCell(ind: Individual, piece: int)
    requires WellFormed(ind) && piece in ind.pieceMapping
    ensures ind.pieceMapping[piece] < ind.rows * ind.columns
    ensures PieceAt(ind, ind.pieceMapping[piece] / ind.columns, ind.pieceMapping[piece] % ind.columns) == Some(piece)
  {
    var i := ind.pieceMapping[piece];
    PositionInGrid(i, ind.rows, ind.columns);
  }

  /** `edge(piece, orientation)`: the id of the piece in the neighbouring cell on the side the
      orientation names, above ("T"), to the right ("R"), below ("D") or to the left ("L");
      `None` when that cell is off the grid or for any other orientation; `KeyError` when
      `piece` is not in the arrangement. */
  function Edge(ind: Individual, piece: int, orientation: string): (r: Result<Option<int>, Error>)
    requires WellFormed(ind)
    ensures r.Failure? <==> piece !in Ids(ind.pieces)
    ensures piece in ind.pieceMapping ==>
      var i := ind.pieceMapping[piece];
      var row, col := i / ind.columns, i % ind.columns;
      && PieceAt(ind, row, col) == Some(piece)
      && r == Success(match Side(orientation)
                      case None => None
                      case Some(d) => PieceAt(ind, row + d.Offset().0, col + d.Offset().1))
  {
    if piece !in ind.pieceMapping then Failure(KeyError)
    else
      var i := ind.pieceMapping[piece];
      OwnCell(ind, piece);
      match Side(orientation)
      case None => Success(None)
      case Some(d) =>
        match NeighbourIndex(i, ind.rows, ind.columns, d)
        case None => Success(None)
        case Some(j) => Success(Some(ind.pieces[j].id))
  }

  /** With unique ids, the id map sends the piece in a cell back to that cell. */
  lemma PositionOfCell(ind: Individual, x: int, r: int, c: int)
    requires WellFormed(ind) && Distinct(ind.pieces)
    requires PieceAt(ind, r, c) == Some(x)
    ensures x in ind.pieceMapping
    ensures ind.pieceMapping[x] / ind.columns == r && ind.pieceMapping[x] % ind.columns == c
  {
    CellInGrid(r, c, ind.rows, ind.columns);
    assert ind.pieces[r * ind.columns + c].id == x;
  }

  /** With unique ids, the lookup from `a` towards `d` reaches `b` exactly when the lookup from
      `b` towards the opposite side `back` reaches `a`. */
  lemma OppositeSides(ind: Individual, a: int, b: int, d: Direction, back: Direction)
    requires WellFormed(ind) && Distinct(ind.pieces)
    requires back.Offset() == (-d.Offset().0, -d.Offset().1)
    ensures PieceLookup(ind, a, d) == Some(b) <==> PieceLookup(ind, b, back) == Some(a)
  {
    if PieceLookup(ind, a, d) == Some(b) {
      LookupBack(ind, a, b, d, back);
    }
    if PieceLookup(ind, b, back) == Some(a) {
      LookupBack(ind, b, a, back, d);
    }
  }

  /** One direction of `OppositeSides`. */
  lemma LookupBack(ind: Individual, a: int, b: int, d: Direction, back: Direction)
    requires WellFormed(ind) && Distinct(ind.pieces)
    requires back.Offset() == (-d.Offset().0, -d.Offset().1)
    requires PieceLookup(ind, a, d) == Some(b)
    ensures PieceLookup(ind, b, back) == Some(a)
  {
    var c := ind.columns;
    var i := ind.pieceMapping[a];
    var r, k := i / c + d.Offset().0, i % c + d.Offset().1;
    OwnCell(ind, a);
    PositionOfCell(ind, b, r, k);
    var j := ind.pieceMapping[b];
    assert j / c + back.Offset().0 == i / c;
    assert j % c + back.Offset().1 == i % c;
  }

  /** The neighbour of a present piece on side `d`, as `edge` finds it. */
  function PieceLookup(ind: Individual, piece: int, d: Direction): Option<int>
    requires WellFormed(ind)
  {
    if piece !in ind.pieceMapping then None
    else
      var i := ind.pieceMapping[piece];
      PieceAt(ind, i / ind.columns + d.Offset().0, i % ind.columns + d.Offset().1)
  }

  /** For a named side, `edge` is the lookup on that side. */
  lemma EdgeIsLookup(ind: Individual, piece: int, orientation: string, d: Direction)
    requires WellFormed(ind) && Side(orientation) == Some(d)
    ensures piece in ind.pieceMapping ==> Edge(ind, piece, orientation) == Success(PieceLookup(ind, piece, d))
    ensures piece !in ind.pieceMapping ==> Edge(ind, piece, orientation).Failure?
  {
  }

  /** Right and left lookups undo each other. */
  lemma RightLeftInverse(ind: Individual, a: int, b: int)
    requires WellFormed(ind) && Distinct(ind.pieces)
    ensures Edge(ind, a, "R") == Success(Some(b)) <==> Edge(ind, b, "L") == Success(Some(a))
  {
    EdgeIsLookup(ind, a, "R", Right);
    EdgeIsLookup(ind, b, "L", Left);
    OppositeSides(ind, a, b, Right, Left);
  }

  /** Down and top lookups undo each other. */
  lemma DownTopInverse(ind: Individual, a: int, b: int)
    requires WellFormed(ind) && Distinct(ind.pieces)
    ensures Edge(ind, a, "D") == Success(Some(b)) <==> Edge(ind, b, "T") == Success(Some(a))
  {
    EdgeIsLookup(ind, a, "D", Down);
    EdgeIsLookup(ind, b, "T", Top);
    OppositeSides(ind, a, b, Down, Top);
  }

  /** The top-left piece of a grid at least two wide and two high has no neighbour above or to
      the left; to its right is the piece in row 0, column 1, and below it the piece in row 1,
      column 0. */
  lemma TopLeftCorner(ind: Individual)
    requires WellFormed(ind) && Distinct(ind.pieces) && ind.rows >= 2 && ind.columns >= 2
    ensures var a := At(ind, 0, 0).id;
      && Edge(ind, a, "T") == Success(None)
      && Edge(ind, a, "L") == Success(None)
      && Edge(ind, a, "R") == Success(Some(At(ind, 0, 1).id))
      && Edge(ind, a, "D") == Success(Some(At(ind, 1, 0).id))
  {
    PositionOfCell(ind, At(ind, 0, 0).id, 0, 0);
  }
}
