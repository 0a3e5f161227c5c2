/** `AbstractGroup::CascadeScalarMultiply`: e1·x + e2·y by one pass over both exponents, with a table of
    the small combinations in which at least one coefficient is odd. */
module CascadeMultiplication {
  import opened Bits
  import opened Groups

  function TableLength(w: nat): nat {
    Pow2(w) * Pow2(w)
  }

  /** Where the table keeps row·y + column·x. */
  function Cell(row: nat, column: nat, w: nat): nat {
    row * Pow2(w) + column
  }

  lemma CellStep(row: nat, column: nat, w: nat)
    ensures Cell(row + 1, column, w) == Cell(row, column, w) + Pow2(w)
    ensures Cell(row, column + 1, w) == Cell(row, column, w) + 1
    ensures Cell(0, column, w) == column
  {
  }

  lemma CellInTable(row: nat, column: nat, w: nat)
    requires column < Pow2(w)
    ensures Cell(row, column, w) < TableLength(w) <==> row < Pow2(w)
  {
    if row < Pow2(w) {
      BelowProduct(row, Pow2(w), column, Pow2(w));
    } else {
      assert (row - Pow2(w)) * Pow2(w) >= 0;
    }
  }

  lemma CellInjective(row: nat, column: nat, row': nat, column': nat, w: nat)
    requires column < Pow2(w) && column' < Pow2(w) && Cell(row, column, w) == Cell(row', column', w)
    ensures row == row' && column == column'
  {
    SplitUnique(w, row, column);
    SplitUnique(w, row', column');
  }

  /** The entries for the (row, column) pairs in `filled` have been computed, and correctly. */
  ghost predicate Filled<T>(g: Group<T>, x: T, y: T, w: nat, table: seq<T>, filled: set<(nat, nat)>) {
    |table| == TableLength(w) &&
    forall r, c :: (r, c) in filled ==>
      c < Pow2(w) && Cell(r, c, w) < |table| && table[Cell(r, c, w)] == Combination(g, c, x, r, y)
  }

  /** Every entry with an odd coefficient has been computed. */
  ghost predicate OddCells(w: nat, filled: set<(nat, nat)>) {
    forall r, c :: 0 <= r < Pow2(w) && 0 <= c < Pow2(w) && (r % 2 == 1 || c % 2 == 1) ==> (r, c) in filled
  }

  /** Every entry with an odd coefficient is its combination. */
  ghost predicate HoldsOddCells<T>(g: Group<T>, x: T, y: T, w: nat, table: seq<T>) {
    forall r: nat, c: nat {:trigger Cell(r, c, w)} :: r < Pow2(w) && c < Pow2(w) && (r % 2 == 1 || c % 2 == 1) ==>
      Cell(r, c, w) < |table| && table[Cell(r, c, w)] == Combination(g, c, x, r, y)
  }

  lemma ReadOddCells<T>(g: Group<T>, x: T, y: T, w: nat, table: seq<T>, filled: set<(nat, nat)>)
    requires Filled(g, x, y, w, table, filled) && OddCells(w, filled)
    ensures HoldsOddCells(g, x, y, w, table)
  {
    hide Cell, Combination, Pow2;
  }

  /** The entry at (r + q, c + p) may be computed from the one at (r, c) by adding p·x + q·y. */
  lemma Store<T(!new)>(g: Group<T>, x: T, y: T, w: nat, table: seq<T>, filled: set<(nat, nat)>, r: nat, c: nat,
                       q: nat, p: nat)
    requires IsAbelian(g) && g.member(x) && g.member(y) && Filled(g, x, y, w, table, filled)
    requires (r, c) in filled && c + p < Pow2(w) && r + q < Pow2(w)
    ensures Cell(r, c, w) < |table| && Cell(r + q, c + p, w) < |table|
    ensures Filled(g, x, y, w,
                   table[Cell(r + q, c + p, w) := g.add(table[Cell(r, c, w)], Combination(g, p, x, q, y))],
                   filled + {(r + q, c + p)})
  {
    CombinationAdd(g, c, r, p, q, x, y);
    CellInTable(r + q, c + p, w);
    forall r', c' | (r', c') in filled && Cell(r', c', w) == Cell(r + q, c + p, w)
      ensures r' == r + q && c' == c + p
    {
      CellInjective(r', c', r + q, c + p, w);
    }
  }

  lemma Load<T>(g: Group<T>, x: T, y: T, w: nat, table: seq<T>, filled: set<(nat, nat)>, r: nat, c: nat)
    requires Filled(g, x, y, w, table, filled) && (r, c) in filled
    ensures Cell(r, c, w) < |table| && table[Cell(r, c, w)] == Combination(g, c, x, r, y)
  {
  }

  lemma Units<T(!new)>(g: Group<T>, x: T, y: T)
    requires IsAbelian(g) && g.member(x) && g.member(y)
    ensures Combination(g, 1, x, 0, y) == x && Combination(g, 0, x, 1, y) == y
    ensures Combination(g, 2, x, 0, y) == g.add(x, x) && Combination(g, 0, x, 2, y) == g.add(y, y)
    ensures Combination(g, 1, x, 1, y) == g.add(x, y)
  {
    TimesOne(g, x);
    TimesOne(g, y);
    Commute(g, g.identity, y);
    CombinationAdd(g, 1, 0, 1, 0, x, y);
    CombinationAdd(g, 0, 1, 0, 1, x, y);
  }

  lemma TableSize(w: nat)
    requires 0 < w
    ensures Pow2(w) % 2 == 0 && Pow2(w) >= 2 && (w == 1 ==> Pow2(w) == 2) && (w > 1 ==> Pow2(w) >= 4)
    ensures TableLength(w) >= 2 * Pow2(w) && (w > 1 ==> TableLength(w) >= 4 * Pow2(w))
    ensures w == 1 ==> TableLength(w) == 4
  {
    SmallPowers(w);
    hide Pow2;
    if w == 1 {
      assert TableLength(w) == 2 * 2;
    } else {
      AtLeastTimes(Pow2(w), 4);
    }
    AtLeastTimes(Pow2(w), 2);
  }

  lemma SmallPowers(w: nat)
    requires 0 < w
    ensures Pow2(w) % 2 == 0 && Pow2(w) >= 2 && (w == 1 ==> Pow2(w) == 2) && (w > 1 ==> Pow2(w) >= 4)
  {
    assert Pow2(w) == 2 * Pow2(w - 1);
    if w > 1 {
      assert Pow2(w - 1) == 2 * Pow2(w - 2);
    }
  }

  lemma AtLeastTimes(p: nat, k: nat)
    requires p >= k
    ensures p * p >= k * p
  {
    assert (p - k) * p >= 0;
  }

  /** The whole table when the window is one bit wide. */
  lemma NarrowTable<T(!new)>(g: Group<T>, x: T, y: T, w: nat, table: seq<T>)
    requires IsAbelian(g) && g.member(x) && g.member(y) && w == 1 && |table| == TableLength(w)
    ensures |table| == 4
    ensures Filled(g, x, y, w, table[1 := x][Pow2(w) := y][3 := g.add(x, y)], {(0, 1), (1, 0), (1, 1)})
  {
    hide IsAbelian, Times, Combination, Pow2, Cell, TableLength;
    Units(g, x, y);
    TableSize(w);
    CellStep(0, 0, w);
    CellStep(0, 1, w);
  }

  /** The entries that are set before the loops when it is wider. */
  lemma Corners<T(!new)>(g: Group<T>, x: T, y: T, w: nat, table: seq<T>)
    requires IsAbelian(g) && g.member(x) && g.member(y) && 1 < w && |table| == TableLength(w)
    ensures 2 < Pow2(w) && 2 * Pow2(w) < |table|
    ensures Filled(g, x, y, w, table[1 := x][Pow2(w) := y][2 := g.add(x, x)][2 * Pow2(w) := g.add(y, y)],
                   {(0, 1), (0, 2), (1, 0), (2, 0)})
  {
    hide IsAbelian, Times, Combination, Pow2, Cell, TableLength;
    Units(g, x, y);
    TableSize(w);
    CellStep(0, 0, w);
    CellStep(0, 1, w);
    CellStep(0, 2, w);
    CellStep(1, 0, w);
  }

  method FillTable<T(!new)>(g: Group<T>, x: T, y: T, w: nat, unset: T)
    returns (table: seq<T>, ghost filled: set<(nat, nat)>)
    requires IsAbelian(g) && g.member(x) && g.member(y) && 0 < w
    ensures Filled(g, x, y, w, table, filled)
    ensures OddCells(w, filled)
    ensures HoldsOddCells(g, x, y, w, table)
  {
    hide IsAbelian, Times, Combination, Cell, TableLength, Filled, HoldsOddCells;
    var tableSize := Pow2(w);
    table := seq(TableLength(w), _ => unset);
    TableSize(w);
    if w == 1 {
      NarrowTable(g, x, y, w, table);
      table, filled := table[1 := x][tableSize := y][3 := g.add(x, y)], {(0, 1), (1, 0), (1, 1)};
    } else {
      table, filled := FillWide(g, x, y, w, table);
    }
    ReadOddCells(g, x, y, w, table, filled);
  }

  method FillWide<T(!new)>(g: Group<T>, x: T, y: T, w: nat, start: seq<T>)
    returns (table: seq<T>, ghost filled: set<(nat, nat)>)
    requires IsAbelian(g) && g.member(x) && g.member(y) && 1 < w && |start| == TableLength(w)
    ensures Filled(g, x, y, w, table, filled)
    ensures OddCells(w, filled)
  {
    hide IsAbelian, Times, Combination, Cell, TableLength, Pow2, Filled, OddCells;
    var tableSize := Pow2(w);
    Corners(g, x, y, w, start);
    TableSize(w);
    Units(g, x, y);
    table := start[1 := x][tableSize := y];
    table := table[2 := g.add(x, x)][2 * tableSize := g.add(y, y)];
    filled := {(0, 1), (0, 2), (1, 0), (2, 0)};
    table, filled := FillFirstRow(g, x, y, w, table, filled);
    FilledLength(g, x, y, w, table, filled);
    table, filled := FillOddColumns(g, x, y, w, table, filled);
    table, filled := FillFirstColumn(g, x, y, w, table, filled);
    table, filled := FillOddRows(g, x, y, w, table, filled);
  }

  lemma FilledLength<T>(g: Group<T>, x: T, y: T, w: nat, table: seq<T>, filled: set<(nat, nat)>)
    requires Filled(g, x, y, w, table, filled)
    ensures |table| == TableLength(w)
  {
  }

  /** table[j] = table[from] + addend, which fills the cell (r + q, c + p) from the cell (r, c). */
  method FillCell<T(!new)>(g: Group<T>, ghost x: T, ghost y: T, ghost w: nat, start: seq<T>,
                           ghost startFilled: set<(nat, nat)>,
                           j: nat, from: nat, addend: T, ghost r: nat, ghost c: nat, ghost q: nat, ghost p: nat)
    returns (table: seq<T>, ghost filled: set<(nat, nat)>)
    requires IsAbelian(g) && g.member(x) && g.member(y) && Filled(g, x, y, w, start, startFilled)
    requires (r, c) in startFilled && c + p < Pow2(w) && r + q < Pow2(w)
    requires j == Cell(r + q, c + p, w) && from == Cell(r, c, w) && addend == Combination(g, p, x, q, y)
    ensures Filled(g, x, y, w, table, filled) && filled == startFilled + {(r + q, c + p)} && |table| == |start|
  {
    hide IsAbelian, Times, Combination, Cell, TableLength, Pow2, Filled;
    Store(g, x, y, w, start, startFilled, r, c, q, p);
    table, filled := start[j := g.add(start[from], addend)], startFilled + {(r + q, c + p)};
  }

  method FillFirstRow<T(!new)>(g: Group<T>, x: T, y: T, w: nat, start: seq<T>, ghost startFilled: set<(nat, nat)>)
    returns (table: seq<T>, ghost filled: set<(nat, nat)>)
    requires IsAbelian(g) && g.member(x) && g.member(y)
    requires Filled(g, x, y, w, start, startFilled) && (0, 1) in startFilled && (0, 2) in startFilled
    ensures Filled(g, x, y, w, table, filled) && startFilled <= filled
    ensures forall c :: 0 <= c < Pow2(w) && c % 2 == 1 ==> (0, c) in filled
  {
    hide IsAbelian, Times, Combination, Cell, TableLength, Pow2, Filled;
    table, filled := start, startFilled;
    var i := 3;
    while i < Pow2(w)
      invariant i % 2 == 1 && Filled(g, x, y, w, table, filled) && startFilled <= filled
      invariant forall c :: 0 <= c < i && c % 2 == 1 ==> (0, c) in filled
    {
      CellStep(0, i, w);
      CellStep(0, i - 2, w);
      CellStep(0, 2, w);
      Load(g, x, y, w, table, filled, 0, 2);
      table, filled := FillCell(g, x, y, w, table, filled, i, i - 2, table[2], 0, i - 2, 0, 2);
      i := i + 2;
    }
  }

  method FillOddColumns<T(!new)>(g: Group<T>, x: T, y: T, w: nat, start: seq<T>, ghost startFilled: set<(nat, nat)>)
    returns (table: seq<T>, ghost filled: set<(nat, nat)>)
    requires IsAbelian(g) && g.member(x) && g.member(y) && Combination(g, 0, x, 1, y) == y
    requires Filled(g, x, y, w, start, startFilled) && |start| == TableLength(w)
    requires forall c :: 0 <= c < Pow2(w) && c % 2 == 1 ==> (0, c) in startFilled
    ensures Filled(g, x, y, w, table, filled) && startFilled <= filled && |table| == |start|
    ensures forall r, c :: 0 <= r < Pow2(w) && 0 <= c < Pow2(w) && c % 2 == 1 ==> (r, c) in filled
  {
    hide IsAbelian, Times, Combination, Cell, TableLength, Pow2, Filled;
    table, filled := start, startFilled;
    var i := 1;
    while i < Pow2(w)
      invariant i % 2 == 1 && Filled(g, x, y, w, table, filled) && startFilled <= filled && |table| == |start|
      invariant forall r, c :: 0 <= r < Pow2(w) && 0 <= c < i && c < Pow2(w) && c % 2 == 1 ==> (r, c) in filled
    {
      var j := i + Pow2(w);
      ghost var row := 1;
      CellStep(0, i, w);
      while j < |table|
        invariant row >= 1 && j == Cell(row, i, w) && (row - 1, i) in filled
        invariant Filled(g, x, y, w, table, filled) && startFilled <= filled && |table| == |start|
        invariant forall r, c :: 0 <= r < Pow2(w) && 0 <= c < i && c < Pow2(w) && c % 2 == 1 ==> (r, c) in filled
        invariant forall r :: 0 <= r < row ==> (r, i) in filled
        decreases |table| - j
      {
        CellInTable(row, i, w);
        CellStep(row, i, w);
        CellStep(row - 1, i, w);
        table, filled := FillCell(g, x, y, w, table, filled, j, j - Pow2(w), y, row - 1, i, 1, 0);
        j, row := j + Pow2(w), row + 1;
      }
      CellInTable(row, i, w);
      i := i + 2;
    }
  }

  method FillFirstColumn<T(!new)>(g: Group<T>, x: T, y: T, w: nat, start: seq<T>, ghost startFilled: set<(nat, nat)>)
    returns (table: seq<T>, ghost filled: set<(nat, nat)>)
    requires IsAbelian(g) && g.member(x) && g.member(y)
    requires Filled(g, x, y, w, start, startFilled) && |start| == TableLength(w)
    requires (1, 0) in startFilled && (2, 0) in startFilled
    ensures Filled(g, x, y, w, table, filled) && startFilled <= filled && |table| == |start|
    ensures forall r :: 0 <= r < Pow2(w) && r % 2 == 1 ==> (r, 0) in filled
  {
    hide IsAbelian, Times, Combination, Cell, TableLength, Pow2, Filled;
    table, filled := start, startFilled;
    var i := 3 * Pow2(w);
    ghost var row := 3;
    CellStep(0, 0, w);
    CellStep(1, 0, w);
    CellStep(2, 0, w);
    while i < |table|
      invariant row >= 3 && row % 2 == 1 && i == Cell(row, 0, w) && 2 * Pow2(w) == Cell(2, 0, w)
      invariant Filled(g, x, y, w, table, filled) && startFilled <= filled && |table| == |start|
      invariant forall r :: 0 <= r < row && r % 2 == 1 ==> (r, 0) in filled
      decreases |table| - i
    {
      CellInTable(row, 0, w);
      CellStep(row - 2, 0, w);
      CellStep(row - 1, 0, w);
      CellStep(row, 0, w);
      CellStep(row + 1, 0, w);
      Load(g, x, y, w, table, filled, 2, 0);
      table, filled := FillCell(g, x, y, w, table, filled, i, i - 2 * Pow2(w), table[2 * Pow2(w)], row - 2, 0, 2, 0);
      i, row := i + 2 * Pow2(w), row + 2;
    }
    CellInTable(row, 0, w);
  }

  method FillOddRows<T(!new)>(g: Group<T>, x: T, y: T, w: nat, start: seq<T>, ghost startFilled: set<(nat, nat)>)
    returns (table: seq<T>, ghost filled: set<(nat, nat)>)
    requires IsAbelian(g) && g.member(x) && g.member(y) && Combination(g, 1, x, 0, y) == x && Pow2(w) % 2 == 0
    requires Filled(g, x, y, w, start, startFilled) && |start| == TableLength(w)
    requires forall r, c :: 0 <= r < Pow2(w) && 0 <= c < Pow2(w) && c % 2 == 1 ==> (r, c) in startFilled
    requires forall r :: 0 <= r < Pow2(w) && r % 2 == 1 ==> (r, 0) in startFilled
    ensures Filled(g, x, y, w, table, filled)
    ensures OddCells(w, filled)
  {
    hide IsAbelian, Times, Combination, Cell, TableLength, Pow2, Filled;
    table, filled := start, startFilled;
    var i := Pow2(w);
    ghost var row := 1;
    CellStep(0, 0, w);
    while i < |table|
      invariant row % 2 == 1 && row >= 1 && i == Cell(row, 0, w)
      invariant Filled(g, x, y, w, table, filled) && startFilled <= filled && |table| == |start|
      invariant forall r, c :: 0 <= r < row && r < Pow2(w) && r % 2 == 1 && 0 <= c < Pow2(w) ==> (r, c) in filled
      decreases |table| - i
    {
      CellInTable(row, 0, w);
      table, filled := FillOddRow(g, x, y, w, i, table, filled, row);
      CellStep(row, 0, w);
      CellStep(row + 1, 0, w);
      i, row := i + 2 * Pow2(w), row + 2;
    }
    CellInTable(row, 0, w);
  }

  /** The even columns of one row. */
  method FillOddRow<T(!new)>(g: Group<T>, x: T, y: T, w: nat, i: nat, start: seq<T>,
                             ghost startFilled: set<(nat, nat)>, ghost row: nat)
    returns (table: seq<T>, ghost filled: set<(nat, nat)>)
    requires IsAbelian(g) && g.member(x) && g.member(y) && Combination(g, 1, x, 0, y) == x && Pow2(w) % 2 == 0
    requires Filled(g, x, y, w, start, startFilled) && |start| == TableLength(w)
    requires row < Pow2(w) && i == Cell(row, 0, w) && (row, 0) in startFilled
    requires forall c :: 0 <= c < Pow2(w) && c % 2 == 1 ==> (row, c) in startFilled
    ensures Filled(g, x, y, w, table, filled) && startFilled <= filled && |table| == |start|
    ensures forall c :: 0 <= c < Pow2(w) ==> (row, c) in filled
  {
    hide IsAbelian, Times, Combination, Cell, TableLength, Pow2, Filled;
    table, filled := start, startFilled;
    var j := i + 2;
    CellStep(row, 0, w);
    CellStep(row, 1, w);
    while j < i + Pow2(w)
      invariant i + 2 <= j && (j - i) % 2 == 0 && j == Cell(row, j - i, w)
      invariant Filled(g, x, y, w, table, filled) && startFilled <= filled && |table| == |start|
      invariant forall c :: 0 <= c < j - i && c < Pow2(w) ==> (row, c) in filled
    {
      CellStep(row, j - 1 - i, w);
      CellStep(row, j - i, w);
      CellStep(row, j + 1 - i, w);
      table, filled := FillCell(g, x, y, w, table, filled, j, j - 1, x, row, j - 1 - i, 0, 1);
      j := j + 2;
    }
  }

  // ---------- the scan over both exponents ----------

  lemma {:induction false} LeadingBits(e: nat, i: nat)
    requires i < BitCount(e)
    ensures Shr(e, i) > 0
  {
    if i > 0 {
      LeadingBits(e / 2, i - 1);
    }
  }

  lemma {:induction false} BitCountBounds(e: nat, n: nat)
    requires BitCount(e) <= n
    ensures Shr(e, n) == 0
  {
    if n > 0 {
      BitCountBounds(e / 2, n - 1);
    }
  }

  function BitAt(e: nat, i: nat): (b: nat)
    ensures b <= 1
  {
    if GetBit(e, i) then 1 else 0
  }

  method RepeatDouble<T(!new)>(g: Group<T>, x: T, y: T, start: T, times: nat, ghost a: nat, ghost b: nat)
    returns (result: T)
    requires IsAbelian(g) && g.member(x) && g.member(y) && start == Combination(g, a, x, b, y)
    ensures result == Combination(g, a * Pow2(times), x, b * Pow2(times), y)
  {
    hide IsAbelian, Times, Combination;
    result := start;
    var n: nat := times;
    ghost var p, q := a, b;
    while n > 0
      invariant n <= times && result == Combination(g, p, x, q, y)
      invariant p * Pow2(n) == a * Pow2(times) && q * Pow2(n) == b * Pow2(times)
    {
      CombinationAdd(g, p, q, p, q, x, y);
      Regroup(p, n);
      Regroup(q, n);
      result := g.add(result, result);
      n, p, q := n - 1, p + p, q + q;
    }
  }

  lemma Regroup(p: nat, n: nat)
    requires n > 0
    ensures (p + p) * Pow2(n - 1) == p * Pow2(n)
  {
  }

  /** r with n more bits appended. */
  function Append(r: nat, n: nat, power: nat): nat {
    r * Pow2(n) + power
  }

  /** The part of an exponent that has been scanned: r is in the result, `power` waits for n bits. */
  ghost predicate Scanned(e: nat, i: nat, r: nat, n: nat, power: nat) {
    Shr(e, i) == Append(r, n, power) && power < Pow2(n)
  }

  lemma ScanBit(e: nat, i: nat, r: nat, n: nat, power: nat)
    requires Scanned(e, i + 1, r, n, power)
    ensures Scanned(e, i, r, n + 1, 2 * power + BitAt(e, i))
  {
    ShrOne(e, i);
    assert r * Pow2(n + 1) == 2 * (r * Pow2(n));
  }

  /** Moves the factors of two of a window out of the table index. */
  method Normalise(power1In: nat, power2In: nat, squaresIn: nat, ghost n: nat)
    returns (power1: nat, power2: nat, squaresBefore: nat, squaresAfter: nat)
    requires power1In < Pow2(n) && power2In < Pow2(n) && n <= squaresIn + 1
    ensures squaresBefore + squaresAfter == squaresIn
    ensures power1In == power1 * Pow2(squaresAfter) && power2In == power2 * Pow2(squaresAfter)
    ensures power1 <= power1In && power2 <= power2In
    ensures (power1 == 0 && power2 == 0) || power1 % 2 == 1 || power2 % 2 == 1
  {
    power1, power2, squaresBefore, squaresAfter := power1In, power2In, squaresIn, 0;
    ghost var m: nat := n;
    while (power1 != 0 || power2 != 0) && power1 % 2 == 0 && power2 % 2 == 0
      invariant squaresBefore + squaresAfter == squaresIn && m + squaresAfter == n
      invariant power1 < Pow2(m) && power2 < Pow2(m) && power1 <= power1In && power2 <= power2In
      invariant power1In == power1 * Pow2(squaresAfter) && power2In == power2 * Pow2(squaresAfter)
      decreases power1 + power2
    {
      assert m > 1 by {
        assert m == 0 ==> Pow2(m) == 1;
        assert m == 1 ==> Pow2(m) == 2 * Pow2(0);
      }
      HalfTimes(power1, squaresAfter);
      HalfTimes(power2, squaresAfter);
      power1, power2 := power1 / 2, power2 / 2;
      squaresBefore, squaresAfter, m := squaresBefore - 1, squaresAfter + 1, m - 1;
    }
  }

  lemma HalfTimes(p: nat, k: nat)
    requires p % 2 == 0
    ensures p / 2 * Pow2(k + 1) == p * Pow2(k)
  {
    assert p / 2 * (2 * Pow2(k)) == (p / 2 * 2) * Pow2(k);
  }

  lemma Shifted(r: nat, before: nat, power: nat, after: nat)
    ensures (r * Pow2(before) + power) * Pow2(after) == r * Pow2(before + after) + power * Pow2(after)
  {
    Pow2Add(before, after);
    assert (r * Pow2(before) + power) * Pow2(after) == r * (Pow2(before) * Pow2(after)) + power * Pow2(after);
  }

  /** Appends one window of n bits to both coefficients of the result. */
  method ApplyWindow<T(!new)>(g: Group<T>, x: T, y: T, w: nat, table: seq<T>, ghost filled: set<(nat, nat)>,
                              start: T, firstTime: bool, power1In: nat, power2In: nat, squaresIn: nat,
                              ghost n: nat, ghost r1: nat, ghost r2: nat)
    returns (result: T)
    requires IsAbelian(g) && g.member(x) && g.member(y) && Filled(g, x, y, w, table, filled)
    requires OddCells(w, filled)
    requires power1In < Pow2(n) && power2In < Pow2(n) && power1In < Pow2(w) && power2In < Pow2(w)
    requires firstTime ==> r1 == r2 == 0 && n == squaresIn + 1 && (power1In != 0 || power2In != 0)
    requires !firstTime ==> n == squaresIn && start == Combination(g, r1, x, r2, y)
    ensures result == Combination(g, Append(r1, n, power1In), x, Append(r2, n, power2In), y)
  {
    hide IsAbelian, Times, Combination, Cell, Pow2, Filled;
    var power1, power2, squaresBefore, squaresAfter := Normalise(power1In, power2In, squaresIn, n);
    ghost var a1, a2 := r1 * Pow2(squaresBefore) + power1, r2 * Pow2(squaresBefore) + power2;
    if firstTime {
      Load(g, x, y, w, table, filled, power2, power1);
      result := table[Cell(power2, power1, w)];
    } else {
      result := RepeatDouble(g, x, y, start, squaresBefore, r1, r2);
      if power1 != 0 || power2 != 0 {
        Load(g, x, y, w, table, filled, power2, power1);
        CombinationAdd(g, r1 * Pow2(squaresBefore), r2 * Pow2(squaresBefore), power1, power2, x, y);
        result := g.add(result, table[Cell(power2, power1, w)]);
      }
    }
    result := RepeatDouble(g, x, y, result, squaresAfter, a1, a2);
    Shifted(r1, squaresBefore, power1, squaresAfter);
    Shifted(r2, squaresBefore, power2, squaresAfter);
  }

  lemma EvenTable(w: nat)
    requires 0 < w
    ensures Pow2(w) % 2 == 0 && Pow2(w) >= 2
  {
    TableSize(w);
  }

  /** The main loop. */
  method Scan<T(!new)>(g: Group<T>, x: T, e1: nat, y: T, e2: nat, expLen: nat, w: nat, table: seq<T>,
                       ghost filled: set<(nat, nat)>, unset: T)
    returns (result: T)
    requires IsAbelian(g) && g.member(x) && g.member(y) && Filled(g, x, y, w, table, filled) && 0 < w
    requires OddCells(w, filled)
    requires 0 < expLen && BitCount(e1) <= expLen && BitCount(e2) <= expLen
    requires expLen == BitCount(e1) || expLen == BitCount(e2)
    ensures result == Combination(g, e1, x, e2, y)
  {
    hide IsAbelian, Times, Combination, Cell, Pow2, Filled, OddCells, Shr, BitCount, BitAt, Append, Scanned;
    EvenTable(w);
    var tableSize := Pow2(w);
    result := unset;
    var power1: nat, power2: nat, prevPosition: nat := 0, 0, expLen - 1;
    var firstTime := true;
    ghost var r1: nat, r2: nat, n: nat := 0, 0, 0;
    StartScan(e1, expLen);
    StartScan(e2, expLen);
    var i := expLen - 1;
    while i >= 0
      invariant -1 <= i < expLen
      invariant Scanned(e1, i + 1, r1, n, power1) && Scanned(e2, i + 1, r2, n, power2)
      invariant firstTime ==> r1 == r2 == 0 && n == expLen - 1 - i && prevPosition == expLen - 1
      invariant !firstTime ==> n == prevPosition - i - 1 && result == Combination(g, r1, x, r2, y)
      invariant 2 * power1 < tableSize && 2 * power2 < tableSize
      invariant i == -1 ==> n == power1 == power2 == 0 && !firstTime
    {
      ScanBit(e1, i, r1, n, power1);
      ScanBit(e2, i, r2, n, power2);
      power1, power2, n := 2 * power1 + BitAt(e1, i), 2 * power2 + BitAt(e2, i), n + 1;
      if i == 0 || 2 * power1 >= tableSize || 2 * power2 >= tableSize {
        if firstTime {
          NonzeroWindow(e1, e2, expLen, i, n, power1, power2);
        }
        ScannedWindow(e1, i, r1, n, power1);
        ScannedWindow(e2, i, r2, n, power2);
        result := ApplyWindow(g, x, y, w, table, filled, result, firstTime, power1, power2, prevPosition - i,
                              n, r1, r2);
        r1, r2 := Append(r1, n, power1), Append(r2, n, power2);
        Restart(e1, i, r1);
        Restart(e2, i, r2);
        prevPosition, firstTime, power1, power2, n := i, false, 0, 0, 0;
      }
      i := i - 1;
    }
    Restart(e1, 0, r1);
    Restart(e2, 0, r2);
  }

  /** e1·x + e2·y, for all non-negative exponents. `unset` stands for the contents of a table entry that
      has not been computed; the result does not depend on it. */
  method CascadeScalarMultiply<T(!new)>(g: Group<T>, x: T, e1: nat, y: T, e2: nat, unset: T) returns (result: T)
    requires IsAbelian(g) && g.member(x) && g.member(y)
    ensures result == Combination(g, e1, x, e2, y)
  {
    hide IsAbelian, Times, Combination, Cell, Pow2, Filled;
    var expLen := if BitCount(e1) > BitCount(e2) then BitCount(e1) else BitCount(e2);
    if expLen == 0 {
      ZeroCombination(g, x, y);
      return g.identity;
    }
    var w := if expLen <= 46 then 1 else if expLen <= 260 then 2 else 3;
    var table;
    ghost var filled;
    table, filled := FillTable(g, x, y, w, unset);
    result := Scan(g, x, e1, y, e2, expLen, w, table, filled, unset);
  }

  lemma ZeroCombination<T(!new)>(g: Group<T>, x: T, y: T)
    requires IsAbelian(g)
    ensures Combination(g, 0, x, 0, y) == g.identity
  {
  }

  lemma StartScan(e: nat, n: nat)
    requires BitCount(e) <= n
    ensures Scanned(e, n, 0, 0, 0)
  {
    BitCountBounds(e, n);
  }

  lemma ScannedWindow(e: nat, i: nat, r: nat, n: nat, power: nat)
    requires Scanned(e, i, r, n, power)
    ensures Shr(e, i) == Append(r, n, power) && power < Pow2(n)
  {
  }

  lemma Restart(e: nat, i: nat, r: nat)
    ensures Scanned(e, i, r, 0, 0) <==> Shr(e, i) == r
    ensures Shr(e, 0) == e
  {
  }

  lemma NonzeroWindow(e1: nat, e2: nat, expLen: nat, i: nat, n: nat, power1: nat, power2: nat)
    requires expLen == BitCount(e1) || expLen == BitCount(e2)
    requires i < expLen && Scanned(e1, i, 0, n, power1) && Scanned(e2, i, 0, n, power2)
    ensures power1 != 0 || power2 != 0
  {
    if expLen == BitCount(e1) {
      LeadingBits(e1, i);
    } else {
      LeadingBits(e2, i);
    }
  }
}
