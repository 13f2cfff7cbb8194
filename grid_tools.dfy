/** `Grid` of src/aoc/tools.py: a list of rows indexed `grid[y][x]`, with
    its height and width fixed when it is built, cell access in both
    directions, row-major iteration and the in-bounds neighbours of a cell. */
module GridTools {
  import opened Wrappers

  /** Python's `xs[i]` on a list of length `n` accepts `-n <= i < n`;
      a negative index counts from the end. */
  predicate IndexOk(i: int, n: int) {
    -n <= i < n
  }

  function Norm(i: int, n: int): (k: int)
    requires IndexOk(i, n)
    ensures 0 <= k < n
  {
    if i < 0 then i + n else i
  }

  /** The four orthogonal steps, then (with `diagonal`) the four diagonal
      ones, in the order the source lists them. */
  function Deltas(diagonal: bool): (ds: seq<(int, int)>)
    ensures |ds| == if diagonal then 8 else 4
  {
    var straight := [(-1, 0), (1, 0), (0, -1), (0, 1)];
    if diagonal then straight + [(-1, -1), (-1, 1), (1, -1), (1, 1)] else straight
  }

  /** The cells `(x + dx, y + dy)` inside a `width` by `height` box, in
      the order of `ds`. */
  function InBoundsShifts(x: int, y: int, ds: seq<(int, int)>, width: int, height: int): (r: seq<(int, int)>)
    ensures |r| <= |ds|
  {
    if ds == [] then []
    else
      var d := ds[|ds| - 1];
      var (nx, ny) := (x + d.0, y + d.1);
      var front := InBoundsShifts(x, y, ds[..|ds| - 1], width, height);
      if 0 <= nx < width && 0 <= ny < height then front + [(nx, ny)] else front
  }

  /** A cell is listed exactly when it is in the box and one of the steps
      away. */
  lemma {:induction false} InBoundsShiftsIff(x: int, y: int, ds: seq<(int, int)>, width: int, height: int, p: (int, int))
    ensures p in InBoundsShifts(x, y, ds, width, height)
      <==> 0 <= p.0 < width && 0 <= p.1 < height && (p.0 - x, p.1 - y) in ds
  {
    if ds != [] {
      InBoundsShiftsIff(x, y, ds[..|ds| - 1], width, height, p);
      assert ds == ds[..|ds| - 1] + [ds[|ds| - 1]];
    }
  }

  /** Distinct steps give distinct cells, so no neighbour is listed twice. */
  lemma {:induction false} InBoundsShiftsDistinct(x: int, y: int, ds: seq<(int, int)>, width: int, height: int)
    requires forall i, j :: 0 <= i < j < |ds| ==> ds[i] != ds[j]
    ensures var r := InBoundsShifts(x, y, ds, width, height);
      forall i, j :: 0 <= i < j < |r| ==> r[i] != r[j]
  {
    if ds != [] {
      var front := ds[..|ds| - 1];
      InBoundsShiftsDistinct(x, y, front, width, height);
      var r0 := InBoundsShifts(x, y, front, width, height);
      var d := ds[|ds| - 1];
      var p := (x + d.0, y + d.1);
      InBoundsShiftsIff(x, y, front, width, height, p);
      forall k | 0 <= k < |front| ensures front[k] != d {
        assert front[k] == ds[k];
      }
      assert p !in r0;
    }
  }

  /** One row's cells with their coordinates, left to right. */
  function RowCells<T>(row: seq<T>, y: int): (r: seq<(int, int, T)>)
    ensures |r| == |row|
  {
    seq(|row|, x requires 0 <= x < |row| => (x, y, row[x]))
  }

  /** All cells, row after row. */
  function Flattened<T>(rows: seq<seq<T>>): seq<(int, int, T)> {
    if rows == [] then []
    else Flattened(rows[..|rows| - 1]) + RowCells(rows[|rows| - 1], |rows| - 1)
  }

  /** In a rectangular grid the cell `(x, y)` is item `y * width + x` of
      the row-major listing, so every cell appears exactly once. */
  lemma {:induction false} FlattenedAt<T>(rows: seq<seq<T>>, width: nat, y: int, x: int)
    requires forall k :: 0 <= k < |rows| ==> |rows[k]| == width
    requires 0 <= y < |rows| && 0 <= x < width
    ensures |Flattened(rows)| == |rows| * width
    ensures y * width + x < |Flattened(rows)| && Flattened(rows)[y * width + x] == (x, y, rows[y][x])
    decreases |rows|
  {
    var front := rows[..|rows| - 1];
    var n := |rows| - 1;
    if n == 0 {
      assert y == 0;
    } else if y < n {
      FlattenedAt(front, width, y, x);
      assert front[y] == rows[y];
      assert y * width + x < n * width by { LessRows(y, n, x, width); }
    } else {
      FlattenedAt(front, width, 0, 0);
    }
    RowBlock(n, width);
  }

  lemma LessRows(y: int, n: int, x: int, width: int)
    requires 0 <= y < n && 0 <= x < width
    ensures y * width + x < n * width
  {
    assert (y + 1) * width <= n * width;
  }

  class Grid<T> {
    var rows: seq<seq<T>>
    const height: int
    const width: int

    /** The shape fixed at construction: the row count, and the length of
        the first row. `__setitem__` keeps both. */
    ghost predicate Valid()
      reads this
    {
      height == |rows| && width == (if height > 0 then |rows[0]| else 0)
    }

    /** `Grid(grid_data)`: the grid starts from the value of the given rows.
        The Python object keeps a reference to the caller's list instead,
        which this value model does not capture. */
    constructor (gridData: seq<seq<T>>)
      ensures Valid() && rows == gridData
      ensures height == |gridData| && width == (if |gridData| > 0 then |gridData[0]| else 0)
    {
      rows := gridData;
      height := |gridData|;
      width := if |gridData| > 0 then |gridData[0]| else 0;
    }

    /** `(x, y)` names a cell under Python indexing: the row index first,
        then the column index within that row. */
    predicate Has(x: int, y: int)
      reads this
    {
      IndexOk(y, |rows|) && IndexOk(x, |rows[Norm(y, |rows|)]|)
    }

    /** `grid[x, y]`: the cell `grid[y][x]`, `None` where Python raises
        `IndexError`. */
    function Get(x: int, y: int): (r: Option<T>)
      reads this
      ensures r.Some? <==> Has(x, y)
    {
      if Has(x, y) then Some(rows[Norm(y, |rows|)][Norm(x, |rows[Norm(y, |rows|)]|)]) else None
    }

    /** `grid[x, y] = value`; `ok` is false where Python raises `IndexError`,
        and then nothing changes. */
    method Set(x: int, y: int, value: T) returns (ok: bool)
      requires Valid()
      modifies this
      ensures Valid()
      ensures ok <==> old(Has(x, y))
      ensures |rows| == |old(rows)| && forall k :: 0 <= k < |rows| ==> |rows[k]| == |old(rows)[k]|
      ensures ok ==> Get(x, y) == Some(value)
      ensures forall x2, y2 :: old(Has(x2, y2)) && !SameCell(x, y, x2, y2) ==> Get(x2, y2) == old(Get(x2, y2))
      ensures !ok ==> rows == old(rows)
    {
      if !Has(x, y) {
        return false;
      }
      var j := Norm(y, |rows|);
      var i := Norm(x, |rows[j]|);
      rows := rows[j := rows[j][i := value]];
      ok := true;
    }

    /** Two index pairs that reach the same cell. */
    predicate SameCell(x: int, y: int, x2: int, y2: int)
      reads this
    {
      Has(x, y) && Has(x2, y2) && Norm(y, |rows|) == Norm(y2, |rows|)
      && Norm(x, |rows[Norm(y, |rows|)]|) == Norm(x2, |rows[Norm(y2, |rows|)]|)
    }

    /** Every row as long as the first, so iteration reaches no missing cell. */
    predicate Rectangular()
      reads this
    {
      forall k :: 0 <= k < |rows| ==> |rows[k]| == width
    }

    /** `iter(grid)`: every cell with its coordinates, row by row. */
    method Cells() returns (cells: seq<(int, int, T)>)
      requires Valid() && Rectangular()
      ensures cells == Flattened(rows)
    {
      cells := [];
      for y := 0 to height
        invariant cells == Flattened(rows[..y])
      {
        assert rows[..y + 1][..y] == rows[..y];
        for x := 0 to width
          invariant cells == Flattened(rows[..y]) + RowCells(rows[y][..x], y)
        {
          assert rows[y][..x + 1] == rows[y][..x] + [rows[y][x]];
          cells := cells + [(x, y, rows[y][x])];
        }
        assert rows[y][..width] == rows[y];
      }
      assert rows[..height] == rows;
    }

    /** `grid.neighbors(x, y, diagonal)`: the cells one step away that lie
        inside the grid's width and height. */
    method Neighbors(x: int, y: int, diagonal: bool) returns (r: seq<(int, int)>)
      ensures r == InBoundsShifts(x, y, Deltas(diagonal), width, height)
    {
      var deltas := Deltas(diagonal);
      r := [];
      for k := 0 to |deltas|
        invariant r == InBoundsShifts(x, y, deltas[..k], width, height)
      {
        assert deltas[..k + 1][..k] == deltas[..k];
        var (nx, ny) := (x + deltas[k].0, y + deltas[k].1);
        if 0 <= nx < width && 0 <= ny < height {
          r := r + [(nx, ny)];
        }
      }
      assert deltas[..|deltas|] == deltas;
    }
  }

  lemma RowBlock(y: int, width: int)
    ensures (y + 1) * width == y * width + width
  {
  }

  /** What `neighbors` promises: each listed cell is in bounds and one of
      the steps away, no cell is listed twice, and there are at most four
      (eight with diagonals). */
  lemma NeighborsSpec(x: int, y: int, diagonal: bool, width: int, height: int, p: (int, int))
    ensures var r := InBoundsShifts(x, y, Deltas(diagonal), width, height);
      (p in r <==> 0 <= p.0 < width && 0 <= p.1 < height && (p.0 - x, p.1 - y) in Deltas(diagonal))
      && (forall i, j :: 0 <= i < j < |r| ==> r[i] != r[j])
      && |r| <= (if diagonal then 8 else 4)
  {
    InBoundsShiftsIff(x, y, Deltas(diagonal), width, height, p);
    InBoundsShiftsDistinct(x, y, Deltas(diagonal), width, height);
  }
}
