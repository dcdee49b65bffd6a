/**
 * The automaton engine of src/components/universe.rs: a toroidal grid of
 * cells with ages, advanced one generation at a time by Conway's B3/S23 rule.
 */
module Universe {
  import opened Primitives

  /** A cell is dead or alive, and remembers for how many generations it has been so. */
  datatype Cell = Dead(age: usize) | Alive(age: usize)

  function AliveBit(c: Cell): (b: nat)
    ensures b == 1 <==> c.Alive?
    ensures b <= 1
  {
    match c
    case Alive(_) => 1
    case Dead(_) => 0
  }

  // ---------------------------------------------------------------------------
  // The transition rule of one cell
  // ---------------------------------------------------------------------------

  /**
   * The ordered rule match of `tick`, arm by arm. The fifth arm, `Alive(i), _`,
   * is proved unreachable: the three guards before it cover every count.
   */
  function NextCell(cell: Cell, liveNeighbors: nat): (r: Cell)
    // B3/S23: alive next exactly when a live cell has 2 or 3 neighbours or a dead one has 3
    ensures r.Alive? <==> (if cell.Alive? then liveNeighbors == 2 || liveNeighbors == 3 else liveNeighbors == 3)
    // ages: 0 exactly on a flip, otherwise one more, saturating
    ensures r.age == 0 <==> r.Alive? != cell.Alive?
    ensures r.Alive? == cell.Alive? ==> r.age == SaturatingInc(cell.age)
  {
    match cell
    case Alive(i) =>
      if liveNeighbors < 2 then Dead(0)
      else if liveNeighbors == 2 || liveNeighbors == 3 then Alive(SaturatingInc(i))
      else if liveNeighbors > 3 then Dead(0)
      else assert false; Alive(SaturatingInc(i))
    case Dead(i) =>
      if liveNeighbors == 3 then Alive(0)
      else Dead(SaturatingInc(i))
  }


  // ---------------------------------------------------------------------------
  // Row-major indexing
  // ---------------------------------------------------------------------------

  function GetIndex(width: nat, row: nat, col: nat): nat
  {
    row * width + col
  }

  /** In-range coordinates give an index inside a `width * height` buffer. */
  lemma GetIndexInBounds(width: nat, height: nat, row: nat, col: nat)
    requires row < height && col < width
    ensures GetIndex(width, row, col) < width * height
  {
    calc {
      GetIndex(width, row, col);
    <  row * width + width;
    == (row + 1) * width;
    <= { MulMonotone(row + 1, height, width); }
      height * width;
    }
  }

  /** The row and column can be recovered from the index: distinct cells get distinct indices. */
  lemma GetIndexInverse(width: nat, row: nat, col: nat)
    requires col < width
    ensures GetIndex(width, row, col) / width == row
    ensures GetIndex(width, row, col) % width == col
  {
    var i := row * width + col;
    DivModUnique(i, width, row, col);
  }

  lemma MulMonotone(a: nat, b: nat, c: nat)
    requires a <= b
    ensures a * c <= b * c
  {
  }

  lemma DivModUnique(i: nat, w: nat, q: nat, r: nat)
    requires r < w && i == q * w + r
    ensures i / w == q && i % w == r
  {
    var q', r' := i / w, i % w;
    assert i == q' * w + r';
    if q' < q {
      assert q' * w + r' < (q' + 1) * w;
      MulMonotone(q' + 1, q, w);
      assert false;
    } else if q < q' {
      assert q * w + r < (q + 1) * w;
      MulMonotone(q + 1, q', w);
      assert false;
    }
  }

  /** An index inside a `width * height` buffer splits into an in-range row and column. */
  lemma IndexSplit(width: nat, height: nat, i: nat)
    requires i < width * height
    ensures width >= 1 && height >= 1
    ensures i / width < height && i % width < width
    ensures GetIndex(width, i / width, i % width) == i
  {
    if i / width >= height {
      MulMonotone(height, i / width, width);
      assert false;
    }
  }

  // ---------------------------------------------------------------------------
  // The grid as a value, and the neighbour count
  // ---------------------------------------------------------------------------

  predicate Shaped(width: nat, height: nat, cells: seq<Cell>)
  {
    |cells| == width * height
  }

  function CellAt(width: nat, height: nat, cells: seq<Cell>, row: nat, col: nat): Cell
    requires Shaped(width, height, cells) && row < height && col < width
  {
    GetIndexInBounds(width, height, row, col);
    cells[GetIndex(width, row, col)]
  }

  /** The offsets `[n - 1, 0, 1]` that `live_neighbor_count` iterates over. */
  function Offsets(n: nat): seq<nat>
    requires n >= 1
  {
    [n - 1, 0, 1]
  }

  /** What one pair of offsets adds to the count: nothing for `(0, 0)`, else the wrapped cell's bit. */
  function Contribution(width: nat, height: nat, cells: seq<Cell>, row: nat, col: nat, i: nat, j: nat): (b: nat)
    requires Shaped(width, height, cells) && width >= 1 && height >= 1 && i < 3 && j < 3
    ensures b <= 1
    ensures Offsets(height)[i] == 0 && Offsets(width)[j] == 0 ==> b == 0
  {
    var dr, dc := Offsets(height)[i], Offsets(width)[j];
    if dr == 0 && dc == 0 then 0
    else AliveBit(CellAt(width, height, cells, (row + dr) % height, (col + dc) % width))
  }

  /** The count accumulated over the first `m` column offsets of row offset `i`. */
  function RowSum(width: nat, height: nat, cells: seq<Cell>, row: nat, col: nat, i: nat, m: nat): (s: nat)
    requires Shaped(width, height, cells) && width >= 1 && height >= 1 && i < 3 && m <= 3
    ensures s <= m
    ensures i == 1 && m >= 2 ==> s <= m - 1
  {
    if m == 0 then 0
    else RowSum(width, height, cells, row, col, i, m - 1) + Contribution(width, height, cells, row, col, i, m - 1)
  }

  /** The count accumulated over the first `m` row offsets. */
  function GridSum(width: nat, height: nat, cells: seq<Cell>, row: nat, col: nat, m: nat): (s: nat)
    requires Shaped(width, height, cells) && width >= 1 && height >= 1 && m <= 3
    ensures s <= 3 * m
    ensures m >= 2 ==> s <= 3 * m - 1
  {
    if m == 0 then 0
    else GridSum(width, height, cells, row, col, m - 1) + RowSum(width, height, cells, row, col, m - 1, 3)
  }

  /** `live_neighbor_count`: the sum over the 8 wrapped offsets; never more than 8. */
  function NeighborCount(width: nat, height: nat, cells: seq<Cell>, row: nat, col: nat): (n: nat)
    requires Shaped(width, height, cells) && width >= 1 && height >= 1
    ensures n <= 8
  {
    GridSum(width, height, cells, row, col, 3)
  }

  /** Euclidean wrap of a signed coordinate onto `[0, n)`. */
  function Wrap(v: int, n: nat): (r: nat)
    requires n >= 1
    ensures r < n
  {
    v % n
  }

  function AliveAt(width: nat, height: nat, cells: seq<Cell>, row: int, col: int): (b: nat)
    requires Shaped(width, height, cells) && width >= 1 && height >= 1
  {
    AliveBit(CellAt(width, height, cells, Wrap(row, height), Wrap(col, width)))
  }

  /** Reference definition: the live cells among the 8 Moore neighbours on the torus. */
  function MooreCount(width: nat, height: nat, cells: seq<Cell>, row: nat, col: nat): nat
    requires Shaped(width, height, cells) && width >= 1 && height >= 1
  {
    var r, c := row as int, col as int;
    AliveAt(width, height, cells, r - 1, c - 1) + AliveAt(width, height, cells, r - 1, c) + AliveAt(width, height, cells, r - 1, c + 1)
    + AliveAt(width, height, cells, r, c - 1) + AliveAt(width, height, cells, r, c + 1)
    + AliveAt(width, height, cells, r + 1, c - 1) + AliveAt(width, height, cells, r + 1, c) + AliveAt(width, height, cells, r + 1, c + 1)
  }

  /** Uniqueness of Euclidean division, for a signed dividend. */
  lemma DivModUniqueInt(a: int, n: nat, q: int, r: nat)
    requires n >= 1 && r < n && a == q * n + r
    ensures a / n == q && a % n == r
  {
    var q', r' := a / n, a % n;
    assert (q - q') * n == r' - r;
    if q' < q {
      MulMonotone(1, q - q', n);
      assert false;
    } else if q < q' {
      MulMonotone(1, q' - q, n);
      assert false;
    }
  }

  /** Adding `n - 1` and wrapping is stepping back by one on the torus. */
  lemma WrapPredecessor(n: nat, v: nat)
    requires n >= 1
    ensures (v + (n - 1)) % n == Wrap(v - 1, n)
  {
    var a := v - 1;
    DivModUniqueInt(a + n, n, a / n + 1, a % n);
  }

  /** The 9 contributions the offset loop adds up. */
  lemma NeighborCountUnfold(width: nat, height: nat, cells: seq<Cell>, row: nat, col: nat)
    requires Shaped(width, height, cells) && width >= 1 && height >= 1
    ensures NeighborCount(width, height, cells, row, col)
         == Contribution(width, height, cells, row, col, 0, 0) + Contribution(width, height, cells, row, col, 0, 1) + Contribution(width, height, cells, row, col, 0, 2)
          + Contribution(width, height, cells, row, col, 1, 0) + Contribution(width, height, cells, row, col, 1, 1) + Contribution(width, height, cells, row, col, 1, 2)
          + Contribution(width, height, cells, row, col, 2, 0) + Contribution(width, height, cells, row, col, 2, 1) + Contribution(width, height, cells, row, col, 2, 2)
  {
    RowSumUnfold(width, height, cells, row, col, 0);
    RowSumUnfold(width, height, cells, row, col, 1);
    RowSumUnfold(width, height, cells, row, col, 2);
    assert GridSum(width, height, cells, row, col, 1) == RowSum(width, height, cells, row, col, 0, 3);
    assert GridSum(width, height, cells, row, col, 2) == GridSum(width, height, cells, row, col, 1) + RowSum(width, height, cells, row, col, 1, 3);
  }

  lemma RowSumUnfold(width: nat, height: nat, cells: seq<Cell>, row: nat, col: nat, i: nat)
    requires Shaped(width, height, cells) && width >= 1 && height >= 1 && i < 3
    ensures RowSum(width, height, cells, row, col, i, 3)
         == Contribution(width, height, cells, row, col, i, 0) + Contribution(width, height, cells, row, col, i, 1) + Contribution(width, height, cells, row, col, i, 2)
  {
    assert RowSum(width, height, cells, row, col, i, 1) == Contribution(width, height, cells, row, col, i, 0);
    assert RowSum(width, height, cells, row, col, i, 2) == RowSum(width, height, cells, row, col, i, 1) + Contribution(width, height, cells, row, col, i, 1);
  }

  /** With both sides at least 2, offset pair `(i, j)` is the signed step `(i - 1, j - 1)`. */
  lemma ContributionIsStep(width: nat, height: nat, cells: seq<Cell>, row: nat, col: nat, i: nat, j: nat)
    requires Shaped(width, height, cells) && width >= 2 && height >= 2 && i < 3 && j < 3
    ensures Contribution(width, height, cells, row, col, i, j)
         == if i == 1 && j == 1 then 0 else AliveAt(width, height, cells, row + i - 1, col + j - 1)
  {
    WrapPredecessor(height, row);
    WrapPredecessor(width, col);
  }

  /**
   * On a torus at least 2 by 2 the source's offset loop counts exactly the 8
   * Moore neighbours. (On a 1-wide or 1-high torus the offset `n - 1` is also 0,
   * so a second pair is skipped as if it were the cell itself.)
   */
  lemma NeighborCountIsMoore(width: nat, height: nat, cells: seq<Cell>, row: nat, col: nat)
    requires Shaped(width, height, cells) && width >= 2 && height >= 2
    ensures NeighborCount(width, height, cells, row, col) == MooreCount(width, height, cells, row, col)
  {
    NeighborCountUnfold(width, height, cells, row, col);
    forall i: nat, j: nat | i < 3 && j < 3
      ensures Contribution(width, height, cells, row, col, i, j)
           == if i == 1 && j == 1 then 0 else AliveAt(width, height, cells, row + i - 1, col + j - 1)
    {
      ContributionIsStep(width, height, cells, row, col, i, j);
    }
  }

  /** The wrap reaches across both edges: a live top-left cell is a neighbour of the other three corners. */
  lemma CornerWrapsAround(width: nat, height: nat, cells: seq<Cell>)
    requires Shaped(width, height, cells) && width >= 1 && height >= 1
    requires cells[0].Alive?
    ensures NeighborCount(width, height, cells, height - 1, width - 1) >= 1
    ensures NeighborCount(width, height, cells, height - 1, 0) >= 1
    ensures NeighborCount(width, height, cells, 0, width - 1) >= 1
  {
    assert CellAt(width, height, cells, 0, 0) == cells[0];
    assert (height - 1 + 1) % height == 0 && (width - 1 + 1) % width == 0;
    assert (0 + 0) % height == 0 && (0 + 0) % width == 0;
    assert Contribution(width, height, cells, height - 1, width - 1, 2, 2) == 1;
    NeighborCountUnfold(width, height, cells, height - 1, width - 1);
    assert Contribution(width, height, cells, height - 1, 0, 2, 1) == 1;
    NeighborCountUnfold(width, height, cells, height - 1, 0);
    assert Contribution(width, height, cells, 0, width - 1, 1, 2) == 1;
    NeighborCountUnfold(width, height, cells, 0, width - 1);
  }

  // ---------------------------------------------------------------------------
  // One generation as a function of the previous one
  // ---------------------------------------------------------------------------

  /** The next state of the cell at index `i`, from the unmodified previous generation. */
  function NextAt(width: nat, height: nat, cells: seq<Cell>, i: nat): Cell
    requires Shaped(width, height, cells) && i < |cells|
  {
    IndexSplit(width, height, i);
    NextCell(cells[i], NeighborCount(width, height, cells, i / width, i % width))
  }

  /** The generation `tick` computes: every cell from the unmodified previous generation. */
  function NextGeneration(width: nat, height: nat, cells: seq<Cell>): (next: seq<Cell>)
    requires Shaped(width, height, cells)
    ensures Shaped(width, height, next)
  {
    seq(|cells|, i requires 0 <= i < |cells| => NextAt(width, height, cells, i))
  }

  /** The next state of the cell at `(row, col)` is the rule applied to the old snapshot. */
  lemma NextAtCoordinates(width: nat, height: nat, cells: seq<Cell>, row: nat, col: nat)
    requires Shaped(width, height, cells) && row < height && col < width
    ensures GetIndex(width, row, col) < |cells|
    ensures NextAt(width, height, cells, GetIndex(width, row, col))
         == NextCell(cells[GetIndex(width, row, col)], NeighborCount(width, height, cells, row, col))
  {
    GetIndexInBounds(width, height, row, col);
    GetIndexInverse(width, row, col);
  }

  /** The cell at `(row, col)` of the next generation obeys the rule applied to the old snapshot. */
  lemma NextGenerationAt(width: nat, height: nat, cells: seq<Cell>, row: nat, col: nat)
    requires Shaped(width, height, cells) && row < height && col < width
    ensures GetIndex(width, row, col) < |cells|
    ensures NextGeneration(width, height, cells)[GetIndex(width, row, col)]
         == NextCell(CellAt(width, height, cells, row, col), NeighborCount(width, height, cells, row, col))
  {
    NextAtCoordinates(width, height, cells, row, col);
  }

  /** The life-and-death rule and the age bookkeeping, for any cell of any grid. */
  lemma NextGenerationRule(width: nat, height: nat, cells: seq<Cell>, row: nat, col: nat)
    requires Shaped(width, height, cells) && row < height && col < width
    ensures GetIndex(width, row, col) < |cells|
    ensures
      var old_ := CellAt(width, height, cells, row, col);
      var new_ := NextGeneration(width, height, cells)[GetIndex(width, row, col)];
      var n := NeighborCount(width, height, cells, row, col);
      && (old_.Alive? && (n < 2 || n > 3) ==> new_ == Dead(0))
      && (old_.Alive? && (n == 2 || n == 3) ==> new_ == Alive(SaturatingInc(old_.age)))
      && (old_.Dead? && n == 3 ==> new_ == Alive(0))
      && (old_.Dead? && n != 3 ==> new_ == Dead(SaturatingInc(old_.age)))
  {
    NextGenerationAt(width, height, cells, row, col);
  }

  /** After a generation, a cell's age is 0 exactly when it flipped; otherwise it is never 0. */
  lemma AgeResetsExactlyOnFlip(width: nat, height: nat, cells: seq<Cell>, i: nat)
    requires Shaped(width, height, cells) && i < |cells|
    ensures
      var next := NextGeneration(width, height, cells);
      && (next[i].age == 0 <==> next[i].Alive? != cells[i].Alive?)
      && (next[i].Alive? == cells[i].Alive? ==> next[i].age == SaturatingInc(cells[i].age) >= 1)
  {
  }

  /** A grid with no live cell stays without one; every cell just ages by one generation. */
  lemma {:induction false} DeadGridStaysDead(width: nat, height: nat, cells: seq<Cell>)
    requires Shaped(width, height, cells)
    requires forall i :: 0 <= i < |cells| ==> cells[i].Dead?
    ensures forall i :: 0 <= i < |cells| ==> NextGeneration(width, height, cells)[i] == Dead(SaturatingInc(cells[i].age))
  {
    forall i | 0 <= i < |cells|
      ensures NextGeneration(width, height, cells)[i] == Dead(SaturatingInc(cells[i].age))
    {
      IndexSplit(width, height, i);
      var row, col := i / width, i % width;
      NeighborCountUnfold(width, height, cells, row, col);
      forall a: nat, b: nat | a < 3 && b < 3
        ensures Contribution(width, height, cells, row, col, a, b) == 0
      {
        var dr, dc := Offsets(height)[a], Offsets(width)[b];
        GetIndexInBounds(width, height, (row + dr) % height, (col + dc) % width);
      }
      assert NeighborCount(width, height, cells, row, col) == 0;
    }
  }

  // ---------------------------------------------------------------------------
  // The drawing case table
  // ---------------------------------------------------------------------------

  /** The colours of `draw`; its `sick` and `dead` are both `Color::Reset`. */
  datatype Colour = Young | Old | Reset

  datatype Tile = Tile(glyph: char, fg: Colour, bg: Colour)

  /** A live cell is drawn young on the generation it was born and old afterwards. */
  function AgeColour(c: Cell): Colour
  {
    if c.age == 0 then Young else Old
  }

  /** The 16-case table packing a top and a bottom cell into one terminal cell. */
  function Glyph(top: Cell, bottom: Cell): (t: Tile)
    ensures t.glyph == (if top.Alive? then '▀' else if bottom.Alive? then '▄' else ' ')
    ensures top.Alive? ==> t.fg == AgeColour(top)
    ensures top.Alive? && bottom.Alive? ==> t.bg == AgeColour(bottom)
    ensures top.Alive? && bottom.Dead? ==> t.bg == Reset
    ensures top.Dead? && bottom.Alive? ==> t.fg == AgeColour(bottom) && t.bg == Reset
    ensures top.Dead? && bottom.Dead? ==> t.fg == Reset && t.bg == Reset
    ensures t.fg == Young || t.bg == Young <==> (top.Alive? && top.age == 0) || (bottom.Alive? && bottom.age == 0)
  {
    match (top, bottom)
    case (Alive(0), Alive(0)) => Tile('▀', Young, Young)
    case (Alive(0), Alive(_)) => Tile('▀', Young, Old)
    case (Alive(_), Alive(0)) => Tile('▀', Old, Young)
    case (Alive(_), Alive(_)) => Tile('▀', Old, Old)
    case (Dead(0), Alive(0)) => Tile('▄', Young, Reset)
    case (Dead(_), Alive(0)) => Tile('▄', Young, Reset)
    case (Dead(0), Alive(_)) => Tile('▄', Old, Reset)
    case (Dead(_), Alive(_)) => Tile('▄', Old, Reset)
    case (Alive(0), Dead(0)) => Tile('▀', Young, Reset)
    case (Alive(0), Dead(_)) => Tile('▀', Young, Reset)
    case (Alive(_), Dead(0)) => Tile('▀', Old, Reset)
    case (Alive(_), Dead(_)) => Tile('▀', Old, Reset)
    case (Dead(0), Dead(0)) => Tile(' ', Reset, Reset)
    case (Dead(0), Dead(_)) => Tile(' ', Reset, Reset)
    case (Dead(_), Dead(0)) => Tile(' ', Reset, Reset)
    case (Dead(_), Dead(_)) => Tile(' ', Reset, Reset)
  }

  // ---------------------------------------------------------------------------
  // The component
  // ---------------------------------------------------------------------------

  /** A terminal area; only its size matters here. */
  datatype Rect = Rect(width: u16, height: u16)

  /** The actions `update` receives; `Other` stands for every action it ignores. */
  datatype Action = Tick | Resize(width: u16, height: u16) | Other

  /** The cell a fresh grid gets from one random draw. */
  function Seeded(alive: bool): (c: Cell)
    ensures c.age == 0 && c.Alive? == alive
  {
    if alive then Alive(0) else Dead(0)
  }

  class Universe {
    var width: nat
    var height: nat
    var cells: seq<Cell>

    ghost predicate Valid()
      reads this
    {
      Shaped(width, height, cells)
    }

    /** `Universe::new`: the derived default, an empty 0 by 0 grid. */
    constructor ()
      ensures Valid()
      ensures width == 0 && height == 0 && cells == []
    {
      width, height, cells := 0, 0, [];
    }

    /** `live_neighbor_count`: the accumulating loop over the row and column offsets. */
    method LiveNeighborCount(row: nat, col: nat) returns (count: nat)
      requires Valid() && width >= 1 && height >= 1
      ensures count == NeighborCount(width, height, cells, row, col)
      ensures count <= 8
    {
      count := 0;
      var deltaRows := Offsets(height);
      var deltaCols := Offsets(width);
      for i := 0 to 3
        invariant count == GridSum(width, height, cells, row, col, i)
      {
        for j := 0 to 3
          invariant count == GridSum(width, height, cells, row, col, i) + RowSum(width, height, cells, row, col, i, j)
        {
          var deltaRow, deltaCol := deltaRows[i], deltaCols[j];
          if deltaRow == 0 && deltaCol == 0 {
            continue;
          }
          var neighborRow := (row + deltaRow) % height;
          var neighborCol := (col + deltaCol) % width;
          GetIndexInBounds(width, height, neighborRow, neighborCol);
          var idx := GetIndex(width, neighborRow, neighborCol);
          count := count + match cells[idx] { case Alive(_) => 1 case Dead(_) => 0 };
        }
      }
    }

    /** One row of `tick`: the cells of row `row` of `next` are computed from the unmodified `cells`. */
    method TickRow(next: array<Cell>, row: nat, ghost base: nat)
      requires Valid() && next.Length == |cells| && row < height && base == row * width
      modifies next
      ensures forall i :: 0 <= i < next.Length ==>
        next[i] == if base <= i < base + width then NextAt(width, height, cells, i) else old(next[i])
    {
      MulMonotone(row + 1, height, width);
      for col := 0 to width
        invariant forall i :: 0 <= i < next.Length ==>
          next[i] == if base <= i < base + col then NextAt(width, height, cells, i) else old(next[i])
      {
        NextAtCoordinates(width, height, cells, row, col);
        var idx := GetIndex(width, row, col);
        var liveNeighbors := LiveNeighborCount(row, col);
        next[idx] := NextCell(cells[idx], liveNeighbors);
      }
    }

    /** `tick`: clone the generation, overwrite every cell from the old one, install the result. */
    method Tick()
      requires Valid()
      modifies this
      ensures Valid()
      ensures width == old(width) && height == old(height)
      ensures cells == NextGeneration(old(width), old(height), old(cells))
    {
      var next := new Cell[|cells|](i requires 0 <= i < |cells| reads this => cells[i]);
      ghost var done := 0;
      for row := 0 to height
        modifies next
        invariant done == row * width
        invariant forall i :: 0 <= i < done && i < next.Length ==> next[i] == NextAt(width, height, cells, i)
      {
        TickRow(next, row, done);
        done := done + width;
      }
      assert done == |cells|;
      assert next[..] == NextGeneration(width, height, cells) by {
        forall i | 0 <= i < |cells|
          ensures next[i] == NextGeneration(width, height, cells)[i]
        {
        }
      }
      cells := next[..];
    }

    /** `init`: take the area's size (two grid rows per terminal row) and seed every cell at age 0. */
    method Init(area: Rect, coin: nat -> bool)
      modifies this
      ensures Valid()
      ensures width == area.width && height == 2 * area.height
      ensures |cells| == width * height
      ensures forall i :: 0 <= i < |cells| ==> cells[i] == Seeded(coin(i))
    {
      width, height := area.width, area.height * 2;
      cells := seq(width * height, i requires 0 <= i => Seeded(coin(i)));
    }

    /** `update`: `Tick` advances a generation, `Resize` re-runs `init`, anything else is ignored. */
    method Update(action: Action, coin: nat -> bool) returns (reply: Option<Action>)
      requires Valid()
      modifies this
      ensures Valid()
      ensures reply == None
      ensures action.Tick? ==>
        width == old(width) && height == old(height) && cells == NextGeneration(old(width), old(height), old(cells))
      ensures action.Resize? ==>
        && width == action.width && height == 2 * action.height
        && forall i :: 0 <= i < |cells| ==> cells[i] == Seeded(coin(i))
      ensures action.Other? ==> width == old(width) && height == old(height) && cells == old(cells)
    {
      match action {
        case Tick => Tick();
        case Resize(w, h) => Init(Rect(w, h), coin);
        case Other =>
      }
      reply := None;
    }
  }
}
