/** AbstractGroup::CascadeScalarMultiply of algebra.cpp: e1 * x + e2 * y with one
    run of doublings and a table of small combinations. */
module CascadeMultiplication {
  import opened Bits
  import opened AbstractGroups

  /** The flat index of the entry meant for p1 * x + p2 * y. */
  function At(p1: nat, p2: nat, tableSize: nat): nat { p2 * tableSize + p1 }

  lemma AtBound(p1: nat, p2: nat, tableSize: nat)
    requires p1 < tableSize && p2 < tableSize
    ensures At(p1, p2, tableSize) < tableSize * tableSize
  {
    MulMonotone(tableSize, p2, tableSize - 1);
    assert p2 * tableSize <= (tableSize - 1) * tableSize == tableSize * tableSize - tableSize;
  }

  lemma AtInjective(p1: nat, p2: nat, q1: nat, q2: nat, tableSize: nat)
    requires p1 < tableSize && q1 < tableSize && At(p1, p2, tableSize) == At(q1, q2, tableSize)
    ensures p1 == q1 && p2 == q2
  {
    DivModUnique(At(p1, p2, tableSize), tableSize, p2, p1);
    DivModUnique(At(p1, p2, tableSize), tableSize, q2, q1);
  }

  lemma AtSteps(p1: nat, p2: nat, tableSize: nat)
    ensures At(p1, 0, tableSize) == p1
    ensures At(p1, p2 + 1, tableSize) == At(p1, p2, tableSize) + tableSize
    ensures At(p1 + 1, p2, tableSize) == At(p1, p2, tableSize) + 1
  {
    assert (p2 + 1) * tableSize == p2 * tableSize + tableSize;
    assert 0 * tableSize == 0;
  }

  ghost predicate Filled<T>(G: Group<T>, x: T, y: T, table: seq<T>, tableSize: nat, p1: nat, p2: nat)
  {
    var k := At(p1, p2, tableSize);
    k < |table| && table[k] == Combination(G, x, p1, y, p2)
  }

  lemma Fill<T>(G: Group<T>, x: T, y: T, table: seq<T>, tableSize: nat, i: nat, j: nat, v: T)
    requires i < tableSize && j < tableSize && |table| == tableSize * tableSize
    requires v == Combination(G, x, i, y, j)
    ensures At(i, j, tableSize) < |table|
    ensures var table' := table[At(i, j, tableSize) := v];
            forall p1: nat, p2: nat {:trigger Filled(G, x, y, table', tableSize, p1, p2)} ::
              p1 < tableSize && (Filled(G, x, y, table, tableSize, p1, p2) || (p1 == i && p2 == j))
              ==> Filled(G, x, y, table', tableSize, p1, p2)
  {
    hide Combination;
    AtBound(i, j, tableSize);
    var table' := table[At(i, j, tableSize) := v];
    forall p1: nat, p2: nat | p1 < tableSize && (Filled(G, x, y, table, tableSize, p1, p2) || (p1 == i && p2 == j))
      ensures Filled(G, x, y, table', tableSize, p1, p2)
    {
      if At(p1, p2, tableSize) == At(i, j, tableSize) {
        AtInjective(p1, p2, i, j, tableSize);
      }
    }
  }

  /** Adds one known multiple to a filled entry and stores the sum in another. */
  method Extend<T(!new)>(G: Group<T>, x: T, y: T, table: seq<T>, tableSize: nat, from: nat, step: T, to: nat,
                         ghost p1: nat, ghost p2: nat, ghost d1: nat, ghost d2: nat)
    returns (table': seq<T>)
    requires IsGroup(G) && G.has(x) && G.has(y)
    requires |table| == tableSize * tableSize && p1 + d1 < tableSize && p2 + d2 < tableSize
    requires from == At(p1, p2, tableSize) && to == At(p1 + d1, p2 + d2, tableSize)
    requires Filled(G, x, y, table, tableSize, p1, p2) && step == Combination(G, x, d1, y, d2)
    ensures |table'| == |table|
    ensures forall q1: nat, q2: nat {:trigger Filled(G, x, y, table', tableSize, q1, q2)} ::
      q1 < tableSize && (Filled(G, x, y, table, tableSize, q1, q2) || (q1 == p1 + d1 && q2 == p2 + d2))
      ==> Filled(G, x, y, table', tableSize, q1, q2)
  {
    hide Combination, IsGroup;
    CombinationAdd(G, x, p1, d1, y, p2, d2);
    var v := G.add(table[from], step);
    Fill(G, x, y, table, tableSize, p1 + d1, p2 + d2, v);
    table' := table[to := v];
  }

  /** Every entry with an odd coordinate holds the combination it is meant for. */
  ghost predicate OddFilled<T>(G: Group<T>, x: T, y: T, table: seq<T>, tableSize: nat)
  {
    && |table| == tableSize * tableSize
    && forall p1: nat, p2: nat :: p1 < tableSize && p2 < tableSize && (p1 % 2 == 1 || p2 % 2 == 1)
         ==> Filled(G, x, y, table, tableSize, p1, p2)
  }

  /** The columns of odd p1: first the row p2 == 0, then upwards by y. */
  method FillOddColumns<T(!new)>(G: Group<T>, x: T, y: T, tableIn: seq<T>, tableSize: nat) returns (table: seq<T>)
    requires IsGroup(G) && G.has(x) && G.has(y) && (tableSize == 4 || tableSize == 8)
    requires |tableIn| == tableSize * tableSize
    requires Filled(G, x, y, tableIn, tableSize, 1, 0) && Filled(G, x, y, tableIn, tableSize, 2, 0)
    ensures |table| == |tableIn|
    ensures forall p1: nat, p2: nat :: p1 < tableSize && p2 < tableSize && p1 % 2 == 1
              ==> Filled(G, x, y, table, tableSize, p1, p2)
    ensures forall p1: nat, p2: nat :: p1 < tableSize && Filled(G, x, y, tableIn, tableSize, p1, p2)
              ==> Filled(G, x, y, table, tableSize, p1, p2)
  {
    hide Combination, IsGroup, At;
    table := tableIn;
    AtSteps(2, 0, tableSize);
    CombinationUnits(G, x, y);
    var i := 3;
    while i < tableSize
      invariant 3 <= i <= tableSize + 1 && i % 2 == 1 && |table| == |tableIn|
      invariant forall p1: nat :: p1 < i && p1 < tableSize && p1 % 2 == 1 ==> Filled(G, x, y, table, tableSize, p1, 0)
      invariant forall p1: nat, p2: nat :: p1 < tableSize && Filled(G, x, y, tableIn, tableSize, p1, p2)
                  ==> Filled(G, x, y, table, tableSize, p1, p2)
    {
      AtSteps(i - 2, 0, tableSize);
      AtSteps(i, 0, tableSize);
      assert Filled(G, x, y, table, tableSize, 2, 0);
      table := Extend(G, x, y, table, tableSize, i - 2, table[2], i, i - 2, 0, 2, 0);
      i := i + 2;
    }
    i := 1;
    while i < tableSize
      invariant 1 <= i <= tableSize + 1 && i % 2 == 1 && |table| == |tableIn|
      invariant forall p1: nat :: p1 < tableSize && p1 % 2 == 1 ==> Filled(G, x, y, table, tableSize, p1, 0)
      invariant forall p1: nat, p2: nat :: p1 < i && p1 < tableSize && p2 < tableSize && p1 % 2 == 1
                  ==> Filled(G, x, y, table, tableSize, p1, p2)
      invariant forall p1: nat, p2: nat :: p1 < tableSize && Filled(G, x, y, tableIn, tableSize, p1, p2)
                  ==> Filled(G, x, y, table, tableSize, p1, p2)
    {
      var j := i + tableSize;
      ghost var row := 1;
      AtSteps(i, 0, tableSize);
      while j < tableSize * tableSize
        invariant 1 <= row <= tableSize && j == At(i, row, tableSize) && |table| == |tableIn|
        invariant forall p1: nat :: p1 < tableSize && p1 % 2 == 1 ==> Filled(G, x, y, table, tableSize, p1, 0)
        invariant forall p1: nat, p2: nat :: p1 < i && p1 < tableSize && p2 < tableSize && p1 % 2 == 1
                    ==> Filled(G, x, y, table, tableSize, p1, p2)
        invariant forall p2: nat :: p2 < row ==> Filled(G, x, y, table, tableSize, i, p2)
        invariant forall p1: nat, p2: nat :: p1 < tableSize && Filled(G, x, y, tableIn, tableSize, p1, p2)
                    ==> Filled(G, x, y, table, tableSize, p1, p2)
        decreases tableSize - row
      {
        RowInRange(i, row, tableSize);
        AtSteps(i, row - 1, tableSize);
        AtSteps(i, row, tableSize);
        table := Extend(G, x, y, table, tableSize, j - tableSize, y, j, i, row - 1, 0, 1);
        j := j + tableSize;
        row := row + 1;
      }
      if row < tableSize { AtBound(i, row, tableSize); }
      i := i + 2;
    }
  }

  lemma RowInRange(p1: nat, p2: nat, tableSize: nat)
    requires At(p1, p2, tableSize) < tableSize * tableSize
    ensures p2 < tableSize
  {
    if p2 >= tableSize {
      MulMonotone(tableSize, tableSize, p2);
    }
  }
  /** The rows of odd p2: first the column p1 == 0, then along the row
      (FillAlongRows), every even entry from the odd one before it. */
  method FillOddRows<T(!new)>(G: Group<T>, x: T, y: T, tableIn: seq<T>, tableSize: nat) returns (table: seq<T>)
    requires IsGroup(G) && G.has(x) && G.has(y) && (tableSize == 4 || tableSize == 8)
    requires |tableIn| == tableSize * tableSize
    requires Filled(G, x, y, tableIn, tableSize, 0, 1) && Filled(G, x, y, tableIn, tableSize, 0, 2)
    requires forall p1: nat, p2: nat :: p1 < tableSize && p2 < tableSize && p1 % 2 == 1
              ==> Filled(G, x, y, tableIn, tableSize, p1, p2)
    ensures OddFilled(G, x, y, table, tableSize)
  {
    hide Combination, IsGroup, At;
    table := tableIn;
    CombinationUnits(G, x, y);
    AtSteps(0, 0, tableSize);
    AtSteps(0, 1, tableSize);
    AtSteps(0, 2, tableSize);
    AtSteps(0, 3, tableSize);
    var i := 3 * tableSize;
    ghost var row := 3;
    while i < tableSize * tableSize
      invariant 3 <= row <= tableSize + 1 && row % 2 == 1 && i == At(0, row, tableSize) && |table| == |tableIn|
      invariant 2 * tableSize == At(0, 2, tableSize) && Filled(G, x, y, table, tableSize, 0, 2)
      invariant forall p2: nat :: p2 < row && p2 % 2 == 1 && p2 < tableSize ==> Filled(G, x, y, table, tableSize, 0, p2)
      invariant forall p1: nat, p2: nat :: p1 < tableSize && p2 < tableSize && p1 % 2 == 1
                  ==> Filled(G, x, y, table, tableSize, p1, p2)
      decreases tableSize + 1 - row
    {
      RowInRange(0, row, tableSize);
      AtSteps(0, row - 2, tableSize);
      AtSteps(0, row - 1, tableSize);
      AtSteps(0, row, tableSize);
      AtSteps(0, row + 1, tableSize);
      table := Extend(G, x, y, table, tableSize, i - 2 * tableSize, table[2 * tableSize], i, 0, row - 2, 0, 2);
      i := i + 2 * tableSize;
      row := row + 2;
    }
    if row < tableSize { AtBound(0, row, tableSize); }
    table := FillAlongRows(G, x, y, table, tableSize);
  }

  method FillAlongRows<T(!new)>(G: Group<T>, x: T, y: T, tableIn: seq<T>, tableSize: nat) returns (table: seq<T>)
    requires IsGroup(G) && G.has(x) && G.has(y) && (tableSize == 4 || tableSize == 8)
    requires |tableIn| == tableSize * tableSize
    requires forall p1: nat, p2: nat :: p1 < tableSize && p2 < tableSize && p1 % 2 == 1
              ==> Filled(G, x, y, tableIn, tableSize, p1, p2)
    requires forall p2: nat :: p2 % 2 == 1 && p2 < tableSize ==> Filled(G, x, y, tableIn, tableSize, 0, p2)
    ensures OddFilled(G, x, y, table, tableSize)
  {
    hide Combination, IsGroup, At;
    table := tableIn;
    CombinationUnits(G, x, y);
    AtSteps(0, 0, tableSize);
    var i := tableSize;
    ghost var row := 1;
    while i < tableSize * tableSize
      invariant 1 <= row <= tableSize + 1 && row % 2 == 1 && i == At(0, row, tableSize) && |table| == |tableIn|
      invariant forall p2: nat :: p2 % 2 == 1 && p2 < tableSize ==> Filled(G, x, y, table, tableSize, 0, p2)
      invariant forall p1: nat, p2: nat :: p1 < tableSize && p2 < tableSize && p1 % 2 == 1
                  ==> Filled(G, x, y, table, tableSize, p1, p2)
      invariant forall p1: nat, p2: nat :: p1 < tableSize && p2 < tableSize && p2 % 2 == 1 && p2 < row
                  ==> Filled(G, x, y, table, tableSize, p1, p2)
      decreases tableSize + 1 - row
    {
      RowInRange(0, row, tableSize);
      AtSteps(0, row, tableSize);
      AtSteps(0, row + 1, tableSize);
      AtSteps(1, row, tableSize);
      var j := i + 2;
      ghost var column := 2;
      while j < i + tableSize
        invariant 2 <= column <= tableSize && column % 2 == 0 && |table| == |tableIn|
        invariant j == At(column, row, tableSize) && j == i + column
        invariant forall p2: nat :: p2 % 2 == 1 && p2 < tableSize ==> Filled(G, x, y, table, tableSize, 0, p2)
        invariant forall p1: nat, p2: nat :: p1 < tableSize && p2 < tableSize && p1 % 2 == 1
                    ==> Filled(G, x, y, table, tableSize, p1, p2)
        invariant forall p1: nat, p2: nat :: p1 < tableSize && p2 < tableSize && p2 % 2 == 1 && p2 < row
                    ==> Filled(G, x, y, table, tableSize, p1, p2)
        invariant forall p1: nat :: p1 < column ==> Filled(G, x, y, table, tableSize, p1, row)
        decreases tableSize - column
      {
        AtSteps(column - 1, row, tableSize);
        AtSteps(column, row, tableSize);
        AtSteps(column + 1, row, tableSize);
        table := Extend(G, x, y, table, tableSize, j - 1, x, j, column - 1, row, 1, 0);
        j := j + 2;
        column := column + 2;
      }
      i := i + 2 * tableSize;
      row := row + 2;
    }
    if row < tableSize { AtBound(0, row, tableSize); }
  }

  /** The table, starting from default elements (blank). */
  method FillTable<T(!new)>(G: Group<T>, x: T, y: T, blank: T, w: nat) returns (table: seq<T>)
    requires IsGroup(G) && G.has(x) && G.has(y) && 1 <= w <= 3
    ensures OddFilled(G, x, y, table, Shl(1, w))
  {
    hide Combination, IsGroup, At;
    var tableSize := Shl(1, w);
    SmallTable(w);
    AtSteps(0, 0, tableSize);
    AtSteps(1, 0, tableSize);
    AtSteps(2, 0, tableSize);
    AtSteps(0, 1, tableSize);
    CombinationUnits(G, x, y);
    CombinationAdd(G, x, 1, 1, y, 0, 0);
    CombinationAdd(G, x, 0, 0, y, 1, 1);
    table := seq(tableSize * tableSize, _ => blank);
    Fill(G, x, y, table, tableSize, 1, 0, x);
    table := table[1 := x];
    Fill(G, x, y, table, tableSize, 0, 1, y);
    table := table[tableSize := y];
    if w == 1 {
      Fill(G, x, y, table, tableSize, 1, 1, G.add(x, y));
      table := table[3 := G.add(x, y)];
    } else {
      Fill(G, x, y, table, tableSize, 2, 0, G.Double(x));
      table := table[2 := G.Double(x)];
      Fill(G, x, y, table, tableSize, 0, 2, G.Double(y));
      table := table[2 * tableSize := G.Double(y)];
      table := FillOddColumns(G, x, y, table, tableSize);
      table := FillOddRows(G, x, y, table, tableSize);
    }
  }

  lemma SmallTable(w: nat)
    requires 1 <= w <= 3
    ensures Shl(1, w) == if w == 1 then 2 else if w == 2 then 4 else 8
  {
    assert Shl(1, 1) == 2 && Shl(1, 2) == 4;
  }

  method Doublings<T(!new)>(G: Group<T>, ghost x: T, ghost y: T, resultIn: T, times: nat, ghost a: int, ghost b: int)
    returns (result: T)
    requires IsGroup(G) && G.has(x) && G.has(y) && resultIn == Combination(G, x, a, y, b)
    ensures result == Combination(G, x, Shl(a, times), y, Shl(b, times))
  {
    hide Combination, IsGroup;
    result := resultIn;
    var squares: nat := times;
    while squares > 0
      invariant squares <= times
      invariant result == Combination(G, x, Shl(a, times - squares), y, Shl(b, times - squares))
    {
      CombinationAdd(G, x, Shl(a, times - squares), Shl(a, times - squares), y, Shl(b, times - squares), Shl(b, times - squares));
      result := G.Double(result);
      squares := squares - 1;
    }
  }

  /** Halves both windows while both are even and not both are zero, moving
      doublings from before the table lookup to after it. */
  method StripZeros(power1In: nat, power2In: nat, squares: nat)
    returns (power1: nat, power2: nat, squaresBefore: nat, squaresAfter: nat)
    requires power1In < Pow2(squares + 1) && power2In < Pow2(squares + 1)
    ensures squaresBefore + squaresAfter == squares
    ensures power1In == Shl(power1, squaresAfter) && power2In == Shl(power2, squaresAfter)
    ensures power1In == 0 && power2In == 0 ==> power1 == 0 && power2 == 0
    ensures power1In > 0 || power2In > 0 ==> power1 % 2 == 1 || power2 % 2 == 1
    ensures power1 <= power1In && power2 <= power2In
  {
    power1, power2, squaresBefore, squaresAfter := power1In, power2In, squares, 0;
    while (power1 > 0 || power2 > 0) && power1 % 2 == 0 && power2 % 2 == 0
      invariant squaresBefore + squaresAfter == squares
      invariant power1In == Shl(power1, squaresAfter) && power2In == Shl(power2, squaresAfter)
      invariant (power1 > 0 || power2 > 0) <==> (power1In > 0 || power2In > 0)
      invariant power1 <= power1In && power2 <= power2In
      decreases power1 + power2
    {
      ShlShl(power1 / 2, 1, squaresAfter);
      ShlShl(power2 / 2, 1, squaresAfter);
      EnoughSquares(power1, squaresAfter, squares);
      EnoughSquares(power2, squaresAfter, squares);
      power1 := power1 / 2;
      power2 := power2 / 2;
      squaresBefore := squaresBefore - 1;
      squaresAfter := squaresAfter + 1;
    }
  }

  /** Before an even non-zero window is halved once more, a doubling is left. */
  lemma EnoughSquares(power: nat, after: nat, squares: nat)
    requires power % 2 == 0 && Shl(power, after) < Pow2(squares + 1)
    ensures power > 0 ==> after + 1 <= squares
  {
    if power > 0 {
      ShlMonotone(2, power, after);
      ShlShl(1, 1, after);
      ShlOne(1 + after);
      if after + 1 > squares { Pow2Monotone(squares + 1, after + 1); }
    }
  }

  function WindowBits(expLen: nat): (w: nat)
    ensures 1 <= w <= 3
  {
    if expLen <= 46 then 1 else if expLen <= 260 then 2 else 3
  }

  /** What is known of one exponent when its bits from position `next` up have
      been read: `covered` of them are in the result, the rest is the window. */
  ghost predicate BitsRead(e: nat, next: nat, prev: nat, covered: int, power: nat)
  {
    next <= prev && Shr(e, next) == Shl(covered, prev - next) + power && power < Pow2(prev - next)
  }

  lemma ReadBit(e: nat, next: nat, prev: nat, covered: int, power: nat)
    requires BitsRead(e, next + 1, prev, covered, power)
    ensures BitsRead(e, next, prev, covered, 2 * power + Bit(e, next))
  {
    ShiftStep(e, next);
  }

  /** The scan stands at bit `next`.  Until the first flush nothing is covered and
      reading began above the top bit; afterwards reading began at prevPosition. */
  ghost predicate Scanned<T>(G: Group<T>, x: T, e1: nat, y: T, e2: nat, expLen: nat,
                             next: nat, prevPosition: nat, firstTime: bool, result: T, power1: nat, power2: nat)
  {
    if firstTime then
      && prevPosition == expLen - 1
      && BitsRead(e1, next, expLen, 0, power1) && BitsRead(e2, next, expLen, 0, power2)
    else
      && prevPosition < expLen
      && BitsRead(e1, next, prevPosition, Shr(e1, prevPosition), power1)
      && BitsRead(e2, next, prevPosition, Shr(e2, prevPosition), power2)
      && result == Combination(G, x, Shr(e1, prevPosition), y, Shr(e2, prevPosition))
  }

  lemma {:induction false} ShrMonotone(e: nat, i: nat, j: nat)
    requires i <= j && Shr(e, j) > 0
    ensures Shr(e, i) > 0
  {
    if i < j {
      ShiftStep(e, j - 1);
      ShrMonotone(e, i, j - 1);
    }
  }

  lemma TableEntry<T>(G: Group<T>, x: T, y: T, table: seq<T>, tableSize: nat, p1: nat, p2: nat)
    requires OddFilled(G, x, y, table, tableSize)
    requires p1 < tableSize && p2 < tableSize && (p1 % 2 == 1 || p2 % 2 == 1)
    ensures At(p1, p2, tableSize) < |table| && table[At(p1, p2, tableSize)] == Combination(G, x, p1, y, p2)
  {
    assert Filled(G, x, y, table, tableSize, p1, p2);
  }

  /** The body of the scan's if: doublings, one table entry, doublings. */
  method Flush<T(!new)>(G: Group<T>, ghost x: T, ghost e1: nat, ghost y: T, ghost e2: nat, powerTable: seq<T>, w: nat,
                        ghost expLen: nat, i: nat, prevPosition: nat, firstTime: bool, resultIn: T, power1In: nat, power2In: nat)
    returns (result: T)
    requires IsGroup(G) && G.has(x) && G.has(y) && OddFilled(G, x, y, powerTable, Shl(1, w))
    requires i < expLen && power1In < Shl(1, w) && power2In < Shl(1, w)
    requires Scanned(G, x, e1, y, e2, expLen, i, prevPosition, firstTime, resultIn, power1In, power2In)
    requires firstTime ==> power1In > 0 || power2In > 0
    ensures result == Combination(G, x, Shr(e1, i), y, Shr(e2, i))
  {
    hide Combination, IsGroup, Shl, Shr, Pow2, At, OddFilled;
    var squares := prevPosition - i;
    Pow2Monotone(squares, squares + 1);
    var power1, power2, squaresBefore, squaresAfter := StripZeros(power1In, power2In, squares);
    var tableSize := Shl(1, w);
    var entry := At(power1, power2, tableSize);
    ghost var a, b := 0, 0;
    if power1 > 0 || power2 > 0 {
      TableEntry(G, x, y, powerTable, tableSize, power1, power2);
    }
    if firstTime {
      result := powerTable[entry];
    } else {
      a, b := Shl(Shr(e1, prevPosition), squaresBefore), Shl(Shr(e2, prevPosition), squaresBefore);
      result := Doublings(G, x, y, resultIn, squaresBefore, Shr(e1, prevPosition), Shr(e2, prevPosition));
      if power1 > 0 || power2 > 0 {
        CombinationAdd(G, x, a, power1, y, b, power2);
        result := G.add(result, powerTable[entry]);
      }
    }
    result := Doublings(G, x, y, result, squaresAfter, a + power1, b + power2);
    ShlAdd(a, power1, squaresAfter);
    ShlAdd(b, power2, squaresAfter);
    if firstTime {
      ShlZero(squaresAfter);
      ShlZero(expLen - i);
    } else {
      ShlShl(Shr(e1, prevPosition), squaresBefore, squaresAfter);
      ShlShl(Shr(e2, prevPosition), squaresBefore, squaresAfter);
    }
  }

  method CascadeScalarMultiply<T(!new)>(G: Group<T>, x: T, e1: nat, y: T, e2: nat, blank: T) returns (result: T)
    requires IsGroup(G) && G.has(x) && G.has(y)
    ensures result == Combination(G, x, e1, y, e2)
    ensures result == G.add(Multiple(G, x, e1), Multiple(G, y, e2))
  {
    hide Combination, Multiple, IsGroup, At, Shl, Shr, Pow2, BitCount, OddFilled, Bit, WindowBits;
    var expLen := if BitCount(e1) > BitCount(e2) then BitCount(e1) else BitCount(e2);
    LengthFacts(e1, expLen);
    LengthFacts(e2, expLen);
    CombinationUnits(G, x, y);
    CombinationTerms(G, x, e1, y, e2);
    if expLen == 0 {
      return G.identity;
    }
    var w := WindowBits(expLen);
    var tableSize := Shl(1, w);
    SmallTable(w);
    var powerTable := FillTable(G, x, y, blank, w);

    result := blank;
    var power1: nat, power2: nat, prevPosition: nat := 0, 0, expLen - 1;
    var firstTime := true;
    var i: nat := expLen;
    StartReading(e1, expLen);
    StartReading(e2, expLen);
    while i > 0
      invariant i <= expLen && 2 * power1 < tableSize && 2 * power2 < tableSize
      invariant Scanned(G, x, e1, y, e2, expLen, i, prevPosition, firstTime, result, power1, power2)
      invariant i == 0 ==> !firstTime && prevPosition == 0
    {
      i := i - 1;
      NextBits(G, x, e1, y, e2, expLen, i, prevPosition, firstTime, result, power1, power2);
      power1 := 2 * power1 + Bit(e1, i);
      power2 := 2 * power2 + Bit(e2, i);
      if i == 0 || 2 * power1 >= tableSize || 2 * power2 >= tableSize {
        result := Flush(G, x, e1, y, e2, powerTable, w, expLen, i, prevPosition, firstTime, result, power1, power2);
        prevPosition := i;
        firstTime := false;
        power1, power2 := 0, 0;
        ZeroShift(e1, i);
        ZeroShift(e2, i);
      }
    }
    ZeroShift(e1, 0);
    ZeroShift(e2, 0);
  }

  lemma StartReading(e: nat, expLen: nat)
    requires Shr(e, expLen) == 0
    ensures BitsRead(e, expLen, expLen, 0, 0)
  {
  }

  /** Reading bit i of both exponents; the first window is never zero, because the
      top bit of one exponent is set. */
  lemma NextBits<T>(G: Group<T>, x: T, e1: nat, y: T, e2: nat, expLen: nat,
                    i: nat, prevPosition: nat, firstTime: bool, result: T, power1: nat, power2: nat)
    requires Scanned(G, x, e1, y, e2, expLen, i + 1, prevPosition, firstTime, result, power1, power2)
    requires expLen > 0 && (Shr(e1, expLen - 1) > 0 || Shr(e2, expLen - 1) > 0)
    ensures Scanned(G, x, e1, y, e2, expLen, i, prevPosition, firstTime, result, 2 * power1 + Bit(e1, i), 2 * power2 + Bit(e2, i))
    ensures firstTime ==> 2 * power1 + Bit(e1, i) > 0 || 2 * power2 + Bit(e2, i) > 0
    ensures i < expLen
  {
    hide Combination, Shl, Shr, Pow2, Bit;
    if firstTime {
      ReadBit(e1, i, expLen, 0, power1);
      ReadBit(e2, i, expLen, 0, power2);
      ShlZero(expLen - i);
      if Shr(e1, expLen - 1) > 0 { ShrMonotone(e1, i, expLen - 1); }
      if Shr(e2, expLen - 1) > 0 { ShrMonotone(e2, i, expLen - 1); }
    } else {
      ReadBit(e1, i, prevPosition, Shr(e1, prevPosition), power1);
      ReadBit(e2, i, prevPosition, Shr(e2, prevPosition), power2);
    }
  }

  lemma ZeroShift(e: nat, i: nat)
    ensures Shl(Shr(e, i), 0) == Shr(e, i) && Shr(e, 0) == e && Pow2(0) == 1
  {
  }

  lemma LengthFacts(e: nat, expLen: nat)
    requires BitCount(e) <= expLen
    ensures Shr(e, expLen) == 0 && e < Pow2(expLen) && Pow2(0) == 1
    ensures expLen == 0 ==> e == 0
    ensures expLen > 0 && BitCount(e) == expLen ==> Shr(e, expLen - 1) > 0
  {
    BitCountUpper(e, expLen);
    ShrSmall(e, expLen);
    if expLen > 0 {
      BitCountUpper(e, expLen - 1);
      ShrSmall(e, expLen - 1);
    }
  }
}
