/**
 Placing codewords in the module grid by the zigzag scan, and masking
 (sections 7.7 and 7.8 of ISO/IEC 18004:2015).
 */
module CodewordPlacement {
  import opened GridIndexing
  import opened ModuleGrid
  import opened PackedBits

  /** The sides of QR Code symbols: 4v + 17. */
  predicate IsSide(side: nat) {
    MIN_SIDE <= side <= MAX_SIDE && side % 4 == 1
  }

  // ---------- The zigzag scan, in coordinates ----------

  /** A turn of the scan loops: pair of columns, vertical counter, 0 right or 1 left. */
  datatype Turn = Turn(pair: nat, vert: nat, j: nat)

  /** The right column of a pair, counted from the right; the scan steps over column 6. */
  function RightColumn(side: nat, pair: nat): nat
    requires IsSide(side) && pair < side / 2
  {
    if side - 1 - 2 * pair > 6 then side - 1 - 2 * pair else side - 2 - 2 * pair
  }

  function Row(side: nat, right: nat, vert: nat): nat
    requires vert < side
  {
    if (right + 1) / 2 % 2 == 0 then side - 1 - vert else vert
  }

  predicate IsTurn(side: nat, t: Turn) {
    t.pair < side / 2 && t.vert < side && t.j < 2
  }

  predicate IsDataCell(side: nat, c: Cell) {
    c.x < side && c.y < side && c.x != 6
  }

  function CellOfTurn(side: nat, t: Turn): (c: Cell)
    requires IsSide(side) && IsTurn(side, t)
    ensures IsDataCell(side, c)
  {
    var right := RightColumn(side, t.pair);
    Cell(right - t.j, Row(side, right, t.vert))
  }

  function TurnOfCell(side: nat, c: Cell): (t: Turn)
    requires IsSide(side) && IsDataCell(side, c)
    ensures IsTurn(side, t)
  {
    var back := if c.x > 6 then side - 1 - c.x else side - 2 - c.x;
    Turn(back / 2, Row(side, c.x + back % 2, c.y), back % 2)
  }

  lemma TurnsAndCells(side: nat, t: Turn, c: Cell)
    requires IsSide(side)
    ensures IsTurn(side, t) ==> TurnOfCell(side, CellOfTurn(side, t)) == t
    ensures IsDataCell(side, c) ==> CellOfTurn(side, TurnOfCell(side, c)) == c
  {}

  // ---------- The same scan, numbered from 0 ----------

  function ScanLength(side: nat): nat {
    side / 2 * side * 2
  }

  function StepOfTurn(side: nat, t: Turn): (n: nat)
    requires IsTurn(side, t)
    ensures n < ScanLength(side)
  {
    GridIndex(t.vert, t.pair, side / 2, side);
    (t.vert + t.pair * side) * 2 + t.j
  }

  function TurnOfStep(side: nat, n: nat): (t: Turn)
    requires n < ScanLength(side)
    ensures IsTurn(side, t)
  {
    GridInverse(n / 2, side / 2, side);
    Turn(n / 2 / side, n / 2 % side, n % 2)
  }

  lemma StepsAndTurns(side: nat, t: Turn, n: nat)
    ensures IsTurn(side, t) ==> TurnOfStep(side, StepOfTurn(side, t)) == t
    ensures n < ScanLength(side) ==> StepOfTurn(side, TurnOfStep(side, n)) == n
  {
    if IsTurn(side, t) {
      GridIndex(t.vert, t.pair, side / 2, side);
      assert StepOfTurn(side, t) / 2 == t.vert + t.pair * side;
    }
    if n < ScanLength(side) {
      GridInverse(n / 2, side / 2, side);
    }
  }

  function CellAt(side: nat, k: nat): (c: Cell)
    requires k < side * side
    ensures c.x < side && c.y < side && Index(side, c) == k
  {
    GridInverse(k, side, side);
    Cell(k % side, k / side)
  }

  lemma CellAtIndex(side: nat, c: Cell)
    requires c.x < side && c.y < side
    ensures CellAt(side, Index(side, c)) == c
  {
    GridIndex(c.x, c.y, side, side);
  }

  /** The index of the module visited at step n of the scan. */
  function ScanIndex(side: nat, n: nat): (k: nat)
    requires IsSide(side) && n < ScanLength(side)
    ensures k < side * side
  {
    Index(side, CellOfTurn(side, TurnOfStep(side, n)))
  }

  /** The step at which the scan visits the module with index k. */
  function ScanStep(side: nat, k: nat): (n: nat)
    requires IsSide(side) && k < side * side && CellAt(side, k).x != 6
    ensures n < ScanLength(side)
  {
    StepOfTurn(side, TurnOfCell(side, CellAt(side, k)))
  }

  /** The scan visits every module outside column 6 exactly once, and no other. */
  lemma ScanIsBijective(side: nat)
    requires IsSide(side)
    ensures forall n: nat :: n < ScanLength(side) ==>
      CellAt(side, ScanIndex(side, n)).x != 6 && ScanStep(side, ScanIndex(side, n)) == n
    ensures forall k: nat :: k < side * side && CellAt(side, k).x != 6 ==>
      ScanIndex(side, ScanStep(side, k)) == k
  {
    hide *;
    forall n: nat | n < ScanLength(side)
      ensures CellAt(side, ScanIndex(side, n)).x != 6 && ScanStep(side, ScanIndex(side, n)) == n
    {
      ScanVisits(side, n);
    }
    forall k: nat | k < side * side && CellAt(side, k).x != 6
      ensures ScanIndex(side, ScanStep(side, k)) == k
    {
      ScanReaches(side, k);
    }
  }

  lemma ScanVisits(side: nat, n: nat)
    requires IsSide(side) && n < ScanLength(side)
    ensures CellAt(side, ScanIndex(side, n)).x != 6
    ensures ScanStep(side, ScanIndex(side, n)) == n
  {
    hide IsSide, ScanLength, CellOfTurn, TurnOfCell, StepOfTurn, TurnOfStep, Index, CellAt;
    var t := TurnOfStep(side, n);
    var c := CellOfTurn(side, t);
    CellAtIndex(side, c);
    TurnsAndCells(side, t, c);
    StepsAndTurns(side, t, n);
  }

  lemma ScanReaches(side: nat, k: nat)
    requires IsSide(side) && k < side * side && CellAt(side, k).x != 6
    ensures ScanIndex(side, ScanStep(side, k)) == k
  {
    hide IsSide, ScanLength, CellOfTurn, TurnOfCell, StepOfTurn, TurnOfStep, Index, CellAt;
    var c := CellAt(side, k);
    var t := TurnOfCell(side, c);
    TurnsAndCells(side, t, c);
    StepsAndTurns(side, t, 0);
  }

  /** The module visited at step n of the scan. */
  function Visited(side: nat, n: nat): Cell
    requires IsSide(side) && n < ScanLength(side)
  {
    CellAt(side, ScanIndex(side, n))
  }

  lemma VisitedAtTurn(side: nat, t: Turn)
    requires IsSide(side) && IsTurn(side, t)
    ensures Visited(side, StepOfTurn(side, t)) == CellOfTurn(side, t)
  {
    hide IsSide, ScanLength, StepOfTurn, CellOfTurn, CellAt, Index;
    StepsAndTurns(side, t, 0);
    CellAtIndex(side, CellOfTurn(side, t));
  }

  /** The scan starts in the lower right corner. */
  lemma ScanStart(side: nat)
    requires IsSide(side)
    ensures 0 < ScanLength(side) && Visited(side, 0) == Cell(side - 1, side - 1)
  {
    hide Visited, CellOfTurn;
    VisitedIs(side, 0, 0, 0, 0);
    CellsOfPair(side, 0, 0);
  }

  /** In every row of a pair of columns it goes to the left neighbour. */
  lemma ScanLeft(side: nat, pair: nat, vert: nat, n: nat)
    requires IsSide(side) && pair < side / 2 && vert < side && n == (vert + pair * side) * 2
    ensures n + 1 < ScanLength(side)
    ensures Visited(side, n + 1).x + 1 == Visited(side, n).x && Visited(side, n + 1).y == Visited(side, n).y
  {
    hide Visited, CellOfTurn, ScanLength, IsSide;
    VisitedIs(side, pair, vert, 0, n);
    VisitedIs(side, pair, vert, 1, n + 1);
    CellsOfPair(side, pair, vert);
  }

  /** From row to row it goes upward in the first pair, and in turn down and up in the others. */
  lemma ScanRow(side: nat, pair: nat, vert: nat, n: nat)
    requires IsSide(side) && pair < side / 2 && vert + 1 < side && n == (vert + pair * side) * 2
    ensures n + 2 < ScanLength(side) && Visited(side, n + 2).x == Visited(side, n).x
    ensures pair % 2 == 0 ==> Visited(side, n + 2).y == Visited(side, n).y - 1
    ensures pair % 2 == 1 ==> Visited(side, n + 2).y == Visited(side, n).y + 1
  {
    hide Visited, CellOfTurn, ScanLength, IsSide;
    VisitedIs(side, pair, vert, 0, n);
    VisitedIs(side, pair, vert + 1, 0, n + 2);
    CellsOfPair(side, pair, vert);
  }

  /** Behind a pair it goes on at its height in the next columns, without column 6. */
  lemma ScanNextPair(side: nat, pair: nat, n: nat)
    requires IsSide(side) && pair + 1 < side / 2 && n + 1 == (pair + 1) * side * 2
    ensures n + 1 < ScanLength(side) && Visited(side, n + 1).y == Visited(side, n).y
    ensures Visited(side, n).x == 7 ==> Visited(side, n + 1).x == 5
    ensures Visited(side, n).x != 7 ==> Visited(side, n + 1).x == Visited(side, n).x - 1
  {
    hide Visited, CellOfTurn, ScanLength, IsSide;
    assert (pair + 1) * side == pair * side + side;
    VisitedIs(side, pair, side - 1, 1, n);
    VisitedIs(side, pair + 1, 0, 0, n + 1);
    CellOfNextPair(side, pair);
  }

  lemma VisitedIs(side: nat, pair: nat, vert: nat, j: nat, n: nat)
    requires IsSide(side) && IsTurn(side, Turn(pair, vert, j)) && n == (vert + pair * side) * 2 + j
    ensures n < ScanLength(side) && Visited(side, n) == CellOfTurn(side, Turn(pair, vert, j))
  {
    hide Visited, CellOfTurn, ScanLength, IsSide;
    VisitedAtTurn(side, Turn(pair, vert, j));
  }

  lemma CellsOfPair(side: nat, pair: nat, vert: nat)
    requires IsSide(side) && pair < side / 2 && vert < side
    ensures var c, d := CellOfTurn(side, Turn(pair, vert, 0)), CellOfTurn(side, Turn(pair, vert, 1));
      d.x + 1 == c.x && d.y == c.y
      && (pair == vert == 0 ==> c == Cell(side - 1, side - 1))
      && (vert + 1 < side ==> var e := CellOfTurn(side, Turn(pair, vert + 1, 0));
        e.x == c.x && e.y == c.y + if pair % 2 == 0 then -1 else 1)
  {
    hide RightColumn, IsSide;
    ColumnOfPair(side, pair);
  }

  lemma CellOfNextPair(side: nat, pair: nat)
    requires IsSide(side) && pair + 1 < side / 2
    ensures var d, e := CellOfTurn(side, Turn(pair, side - 1, 1)), CellOfTurn(side, Turn(pair + 1, 0, 0));
      e.y == d.y && e.x == d.x - if d.x == 7 then 2 else 1
  {
    hide RightColumn, IsSide;
    ColumnOfPair(side, pair);
    ColumnOfPair(side, pair + 1);
  }

  lemma ColumnOfPair(side: nat, pair: nat)
    requires IsSide(side) && pair < side / 2
    ensures (RightColumn(side, pair) + 1) / 2 % 2 == pair % 2
    ensures RightColumn(side, pair) == if pair == 0 then side - 1 else
      RightColumn(side, pair - 1) - if RightColumn(side, pair - 1) == 8 then 3 else 2
  {}

  // ---------- Drawing codewords ----------

  /** How many of the modules visited in the first n steps are white in v. */
  function FreeBefore(v: seq<bool>, side: nat, n: nat): nat
    requires IsSide(side) && |v| == side * side && n <= ScanLength(side)
  {
    if n == 0 then 0
    else FreeBefore(v, side, n - 1) + if v[ScanIndex(side, n - 1)] then 0 else 1
  }

  /** Module k after n steps: the white modules visited so far hold the bits, in scan order. */
  function Placed(v: seq<bool>, side: nat, bits: seq<bool>, n: nat, k: nat): bool
    requires IsSide(side) && |v| == side * side && n <= ScanLength(side) && k < side * side
  {
    if v[k] || CellAt(side, k).x == 6 then v[k] else
    var step := ScanStep(side, k);
    if step < n && FreeBefore(v, side, step) < |bits| then bits[FreeBefore(v, side, step)] else v[k]
  }

  function PlacedView(v: seq<bool>, side: nat, bits: seq<bool>, n: nat): (w: seq<bool>)
    requires IsSide(side) && |v| == side * side && n <= ScanLength(side)
    ensures |w| == |v|
  {
    seq(side * side, k requires 0 <= k < side * side => Placed(v, side, bits, n, k))
  }

  lemma PlacedStep(v: seq<bool>, side: nat, bits: seq<bool>, n: nat)
    requires IsSide(side) && |v| == side * side && n < ScanLength(side)
    ensures var k, i := ScanIndex(side, n), FreeBefore(v, side, n);
      var w := PlacedView(v, side, bits, n);
      w[k] == v[k]
      && PlacedView(v, side, bits, n + 1) == if !v[k] && i < |bits| then w[k := bits[i]] else w
  {
    hide IsSide, ScanLength, ScanIndex, ScanStep, CellAt, FreeBefore;
    var k := ScanIndex(side, n);
    ScanVisits(side, n);
    forall m: nat | m < side * side && m != k
      ensures Placed(v, side, bits, n + 1, m) == Placed(v, side, bits, n, m)
    {
      if CellAt(side, m).x != 6 {
        ScanReaches(side, m);
      }
    }
  }

  /** The modules that are white in free, read from w in scan order. */
  function ReadBack(w: seq<bool>, free: seq<bool>, side: nat, n: nat): (r: seq<bool>)
    requires IsSide(side) && |w| == |free| == side * side && n <= ScanLength(side)
    ensures |r| == FreeBefore(free, side, n)
  {
    if n == 0 then []
    else var k := ScanIndex(side, n - 1);
      ReadBack(w, free, side, n - 1) + if free[k] then [] else [w[k]]
  }

  function Padded(bits: seq<bool>, n: nat): (p: seq<bool>)
    ensures |p| == n
  {
    seq(n, i requires 0 <= i < n => i < |bits| && bits[i])
  }

  /** Reading the codeword modules in scan order gives the bits back, then white. */
  lemma {:induction false} BitsReadBack(w: seq<bool>, v: seq<bool>, side: nat, bits: seq<bool>, n: nat)
    requires IsSide(side) && |w| == |v| == side * side && n <= ScanLength(side)
    requires forall k: nat :: k < side * side && !v[k] ==> w[k] == Placed(v, side, bits, ScanLength(side), k)
    ensures ReadBack(w, v, side, n) == Padded(bits, FreeBefore(v, side, n))
  {
    hide IsSide, ScanLength, ScanIndex, ScanStep, CellAt;
    if n > 0 {
      BitsReadBack(w, v, side, bits, n - 1);
      ScanVisits(side, n - 1);
    }
  }

  function Min(a: nat, b: nat): nat {
    if a < b then a else b
  }

  /** The state of the drawing loops after n steps, i bits of which have been drawn on v. */
  ghost predicate Drawing(qr: seq<bv8>, v: seq<bool>, side: nat, bits: seq<bool>, n: nat, i: nat) {
    IsGrid(qr) && Side(qr) == side && IsSide(side) && |v| == side * side && n <= ScanLength(side)
    && View(qr) == PlacedView(v, side, bits, n) && i == Min(FreeBefore(v, side, n), |bits|)
  }

  lemma DrawingStep(before: seq<bv8>, after: seq<bv8>, v: seq<bool>, side: nat, bits: seq<bool>,
                    t: Turn, w: seq<bool>, k: nat, i: nat)
    requires IsSide(side) && IsTurn(side, t) && k == Index(side, CellOfTurn(side, t)) && k < |w|
    requires Drawing(before, v, side, bits, StepOfTurn(side, t), i)
    requires View(before) == w && IsGrid(after) && Side(after) == side
    requires View(after) == if !w[k] && i < |bits| then w[k := bits[i]] else w
    ensures Drawing(after, v, side, bits, StepOfTurn(side, t) + 1, if !w[k] && i < |bits| then i + 1 else i)
  {
    hide IsGrid, Side, View, IsSide, ScanLength, PlacedView, TurnOfStep, StepOfTurn, CellOfTurn, Index;
    var n := StepOfTurn(side, t);
    StepsAndTurns(side, t, n);
    PlacedStep(v, side, bits, n);
  }

  lemma TurnCell(side: nat, t: Turn)
    requires IsSide(side) && IsTurn(side, t)
    ensures var right := RightColumn(side, t.pair);
      right >= t.j
      && CellOfTurn(side, t) == Cell(right - t.j, if (right + 1) / 2 % 2 == 0 then side - 1 - t.vert else t.vert)
  {}

  /** One turn of the innermost loop of the scan. */
  method DrawTurn(data: array<bv8>, dataLen: nat, qr: array<bv8>, right: nat, vert: nat, j: nat, i: nat,
                  ghost v: seq<bool>, ghost side: nat, ghost t: Turn)
    returns (next: nat)
    requires IsSide(side) && data != qr && dataLen <= data.Length
    requires t == Turn(t.pair, vert, j) && IsTurn(side, t) && right == RightColumn(side, t.pair)
    requires Drawing(qr[..], v, side, Bits(data[..dataLen]), StepOfTurn(side, t), i)
    modifies qr
    ensures Drawing(qr[..], v, side, Bits(data[..dataLen]), StepOfTurn(side, t) + 1, next)
  {
    hide IsSide, IsGrid, Side, View, Bit, ScanLength, PlacedView, FreeBefore, StepOfTurn, Drawing, Index, RightColumn,
      Row, CellOfTurn;
    TurnCell(side, t);
    DrawingHas(qr[..], v, side, Bits(data[..dataLen]), StepOfTurn(side, t), i);
    ghost var before, w := qr[..], View(qr[..]);
    SideIsFirst(qr[..]);
    var qrsize := qr[0] as nat;
    var x := right - j;
    var upward := (right + 1) / 2 % 2 == 0;
    var y := if upward then qrsize - 1 - vert else vert;
    ghost var k := Index(side, Cell(x, y));
    next := i;
    var dark := GetModule(qr, x, y);
    if !dark && i < dataLen * 8 {
      var black := Bit(data[i / 8], 7 - i % 8);
      SetModule(qr, x, y, black);
      next := i + 1;
    }
    DrawingStep(before, qr[..], v, side, Bits(data[..dataLen]), t, w, k, i);
  }

  /** The step of the scan at which the inner loops reach a pair and a vertical position. */
  function StepAt(side: nat, pair: nat, vert: nat): nat {
    (vert + pair * side) * 2
  }

  lemma StepAtLaws(side: nat, pair: nat, vert: nat)
    ensures StepAt(side, 0, 0) == 0
    ensures StepAt(side, pair, vert + 1) == StepAt(side, pair, vert) + 2
    ensures StepAt(side, pair, side) == StepAt(side, pair + 1, 0)
    ensures StepAt(side, side / 2, 0) == ScanLength(side)
    ensures forall j: nat :: IsTurn(side, Turn(pair, vert, j)) ==>
      StepOfTurn(side, Turn(pair, vert, j)) == StepAt(side, pair, vert) + j
  {
    assert (pair + 1) * side == pair * side + side;
  }

  /** The value of right on entry to the loop body for a pair, before column 6 is stepped over. */
  function Entry(side: int, pair: int): int {
    if side - 1 - 2 * pair >= 6 then side - 1 - 2 * pair else side - 2 - 2 * pair
  }

  /** The vertical loop of the scan, over one pair of columns. */
  method DrawPair(data: array<bv8>, dataLen: nat, qr: array<bv8>, right: nat, i: nat,
                  ghost v: seq<bool>, ghost side: nat, ghost pair: nat)
    returns (next: nat)
    requires IsSide(side) && data != qr && dataLen <= data.Length
    requires pair < side / 2 && right == RightColumn(side, pair)
    requires Drawing(qr[..], v, side, Bits(data[..dataLen]), StepAt(side, pair, 0), i)
    modifies qr
    ensures Drawing(qr[..], v, side, Bits(data[..dataLen]), StepAt(side, pair, side), next)
  {
    hide IsSide, IsGrid, Side, View, PlacedView, Bits, FreeBefore, StepAt, Drawing, ScanLength, StepOfTurn, RightColumn;
    DrawingHas(qr[..], v, side, Bits(data[..dataLen]), StepAt(side, pair, 0), i);
    SideIsFirst(qr[..]);
    var qrsize := qr[0] as nat;
    next := i;
    for vert := 0 to qrsize
      invariant Drawing(qr[..], v, side, Bits(data[..dataLen]), StepAt(side, pair, vert), next)
    {
      StepAtLaws(side, pair, vert);
      next := DrawTurn(data, dataLen, qr, right, vert, 0, next, v, side, Turn(pair, vert, 0));
      next := DrawTurn(data, dataLen, qr, right, vert, 1, next, v, side, Turn(pair, vert, 1));
    }
  }

  lemma EntryLaws(side: nat, pair: nat)
    requires IsSide(side) && pair <= side / 2
    ensures Entry(side, 0) == side - 1
    ensures Entry(side, pair) >= 1 <==> pair < side / 2
    ensures pair < side / 2 ==> var right := if Entry(side, pair) == 6 then 5 else Entry(side, pair);
      right == RightColumn(side, pair) && Entry(side, pair + 1) == right - 2
  {}

  /**
   Draws the codewords.  The caller has marked the function modules black, and
   there are white modules enough for all bits.
   */
  method DrawCodewords(data: array<bv8>, dataLen: nat, qr: array<bv8>)
    requires IsGrid(qr[..]) && IsSide(Side(qr[..])) && data != qr && dataLen <= data.Length
    requires dataLen * 8 <= FreeBefore(View(qr[..]), Side(qr[..]), ScanLength(Side(qr[..])))
    modifies qr
    ensures IsGrid(qr[..]) && Side(qr[..]) == old(Side(qr[..]))
    ensures View(qr[..])
         == PlacedView(old(View(qr[..])), Side(qr[..]), Bits(data[..dataLen]), ScanLength(Side(qr[..])))
  {
    hide IsSide, IsGrid, Side, View, PlacedView, Bits, FreeBefore, StepAt, Drawing, ScanLength, StepOfTurn, Entry,
      RightColumn;
    SideIsFirst(qr[..]);
    ghost var v, side, bits := View(qr[..]), Side(qr[..]), Bits(data[..dataLen]);
    var qrsize := qr[0] as nat;
    var i := 0;
    var right: int := qrsize - 1;
    ghost var pair := 0;
    DrawingStarts(qr[..], v, side, bits);
    StepAtLaws(side, 0, 0);
    EntryLaws(side, 0);
    while right >= 1
      invariant pair <= side / 2 && right == Entry(side, pair)
      invariant Drawing(qr[..], v, side, bits, StepAt(side, pair, 0), i)
      decreases right
    {
      EntryLaws(side, pair);
      if right == 6 {
        right := 5;
      }
      i := DrawPair(data, dataLen, qr, right, i, v, side, pair);
      StepAtLaws(side, pair, 0);
      pair := pair + 1;
      right := right - 2;
    }
    EntryLaws(side, pair);
    StepAtLaws(side, 0, 0);
    DrawingEnds(qr[..], v, side, bits, i);
    assert i == dataLen * 8;
  }

  lemma DrawingHas(qr: seq<bv8>, v: seq<bool>, side: nat, bits: seq<bool>, n: nat, i: nat)
    requires Drawing(qr, v, side, bits, n, i)
    ensures IsGrid(qr) && Side(qr) == side
  {}

  lemma DrawingStarts(qr: seq<bv8>, v: seq<bool>, side: nat, bits: seq<bool>)
    requires IsGrid(qr) && IsSide(side) && Side(qr) == side && View(qr) == v
    ensures Drawing(qr, v, side, bits, 0, 0)
  {}

  lemma DrawingEnds(qr: seq<bv8>, v: seq<bool>, side: nat, bits: seq<bool>, i: nat)
    requires Drawing(qr, v, side, bits, ScanLength(side), i)
    requires |bits| <= FreeBefore(v, side, ScanLength(side))
    ensures IsGrid(qr) && Side(qr) == side && View(qr) == PlacedView(v, side, bits, ScanLength(side))
    ensures i == |bits|
  {}

  // ---------- Masking ----------

  /** Whether a mask pattern inverts the module in column x and row y. */
  predicate Inverts(mask: nat, x: nat, y: nat)
    requires mask < 8
  {
    match mask
    case 0 => (x + y) % 2 == 0
    case 1 => y % 2 == 0
    case 2 => x % 3 == 0
    case 3 => (x + y) % 3 == 0
    case 4 => (x / 3 + y / 2) % 2 == 0
    case 5 => x * y % 2 + x * y % 3 == 0
    case 6 => (x * y % 2 + x * y % 3) % 2 == 0
    case 7 => ((x + y) % 2 + x * y % 3) % 2 == 0
  }

  // ---------- The mask patterns as pictures ----------

  /** The tiles that the mask patterns are made of, row by row; # stands for an inverted module. */
  function Picture(mask: nat): (rows: seq<string>)
    requires mask < 8
    ensures |rows| > 0
  {
    match mask
    case 0 => ["#.", ".#"]
    case 1 => ["#", "."]
    case 2 => ["#.."]
    case 3 => ["#..", "..#", ".#."]
    case 4 => ["###...", "###...", "...###", "...###"]
    case 5 => ["######", "#.....", "#..#..", "#.#.#.", "#..#..", "#....."]
    case 6 => ["######", "###...", "##.##.", "#.#.#.", "#.##.#", "#...##"]
    case 7 => ["#.#.#.", "...###", "#...##", ".#.#.#", "###...", ".###.."]
  }

  function PictureWidth(mask: nat): (w: nat)
    requires mask < 8
    ensures w > 0 && forall row :: row in Picture(mask) ==> |row| == w
  {
    |Picture(mask)[0]|
  }

  /** Whether the module is inverted when the tile is laid out from the upper left corner. */
  predicate InPicture(mask: nat, x: nat, y: nat)
    requires mask < 8
  {
    Picture(mask)[y % |Picture(mask)|][x % PictureWidth(mask)] == '#'
  }

  function TimesMod(x: nat, y: nat, m: nat): nat
    requires m > 0
  {
    x * y % m
  }

  lemma TimesModSwaps(x: nat, y: nat, m: nat)
    requires m > 0
    ensures TimesMod(x, y, m) == TimesMod(y, x, m)
  {
    assert x * y == y * x;
  }

  lemma {:induction false} FactorMod(x: nat, y: nat, m: nat)
    requires m > 0
    ensures TimesMod(x, y, m) == TimesMod(x % m, y, m)
  {
    hide TimesMod;
    if x >= m {
      OneLess(x, y, m);
      FactorMod(x - m, y, m);
      ModOfSum(1, x - m, m);
    } else {
      GridIndex(x, 0, 1, m);
    }
  }

  lemma OneLess(x: nat, y: nat, m: nat)
    requires 0 < m <= x
    ensures TimesMod(x, y, m) == TimesMod(x - m, y, m)
  {
    assert x * y == y * m + (x - m) * y;
    ModOfSum(y, (x - m) * y, m);
  }

  lemma ProductMod(x: nat, y: nat, m: nat)
    requires m > 0
    ensures TimesMod(x, y, m) == TimesMod(x % m, y % m, m)
  {
    hide TimesMod;
    FactorMod(x, y, m);
    TimesModSwaps(x % m, y, m);
    FactorMod(y, x % m, m);
    TimesModSwaps(y % m, x % m, m);
  }

  lemma ModOfSum(q: nat, r: nat, m: nat)
    requires m > 0
    ensures (q * m + r) % m == r % m
  {
    var k := r / m;
    assert q * m + r == (q + k) * m + r % m;
    GridIndex(r % m, q + k, q + k + 1, m);
  }

  lemma Picture0(x: nat, y: nat)
    ensures Inverts(0, x, y) == InPicture(0, x, y)
  {}

  lemma Picture1(x: nat, y: nat)
    ensures Inverts(1, x, y) == InPicture(1, x, y)
  {}

  lemma Picture2(x: nat, y: nat)
    ensures Inverts(2, x, y) == InPicture(2, x, y)
  {}

  lemma Picture3(x: nat, y: nat)
    ensures Inverts(3, x, y) == InPicture(3, x, y)
  {}

  lemma HalfTile(x: nat, h: nat)
    requires h == 2 || h == 3
    ensures x / h % 2 == x % (2 * h) / h
  {}

  lemma BrickPicture(x: nat, y: nat)
    ensures Inverts(4, x, y) == InPicture(4, x, y)
  {
    HalfTile(x, 3);
    HalfTile(y, 2);
    Brick(x % 6, y % 4);
    SumParity(x / 3, y / 2);
  }

  lemma SumParity(a: nat, b: nat)
    ensures (a + b) % 2 == (a % 2 + b % 2) % 2
  {}

  lemma Brick(a: nat, b: nat)
    requires a < 6 && b < 4
    ensures Picture(4)[b][a] == '#' <==> (a / 3 + b / 2) % 2 == 0
  {}

  /** The last three patterns repeat after six modules in either direction. */
  lemma TileRepeats(mask: nat, x: nat, y: nat)
    requires 5 <= mask < 8
    ensures Inverts(mask, x, y) == Inverts(mask, x % 6, y % 6)
  {
    var (a, b) := (x % 6, y % 6);
    SixMod(x);
    SixMod(y);
    ProductMod(x, y, 2);
    ProductMod(x, y, 3);
    ProductMod(a, b, 2);
    ProductMod(a, b, 3);
    SumParity(x, y);
    SumParity(a, b);
  }

  lemma SixMod(x: nat)
    ensures x % 6 % 2 == x % 2 && x % 6 % 3 == x % 3
  {
    var q := x / 6;
    assert x == q * 3 * 2 + x % 6;
    ModOfSum(q * 3, x % 6, 2);
    ModOfSum(q * 2, x % 6, 3);
  }

  lemma TileIsPicture(mask: nat, a: nat, b: nat)
    requires 5 <= mask < 8 && a < 6 && b < 6
    ensures Inverts(mask, a, b) == (Picture(mask)[b][a] == '#')
  {
    hide Inverts, Picture;
    match mask {
      case 5 => TileOf5(a, b);
      case 6 => TileOf6(a, b);
      case 7 => TileOf7(a, b);
    }
  }

  lemma TileOf5(a: nat, b: nat)
    requires a < 6 && b < 6
    ensures Inverts(5, a, b) == (Picture(5)[b][a] == '#')
  {
    hide Inverts, Picture;
    match a {
      case 0 => Column0OfTile5(b);
      case 1 => Column1OfTile5(b);
      case 2 => Column2OfTile5(b);
      case 3 => Column3OfTile5(b);
      case 4 => Column4OfTile5(b);
      case 5 => Column5OfTile5(b);
    }
  }

  lemma TileOf6(a: nat, b: nat)
    requires a < 6 && b < 6
    ensures Inverts(6, a, b) == (Picture(6)[b][a] == '#')
  {
    hide Inverts, Picture;
    match a {
      case 0 => Column0OfTile6(b);
      case 1 => Column1OfTile6(b);
      case 2 => Column2OfTile6(b);
      case 3 => Column3OfTile6(b);
      case 4 => Column4OfTile6(b);
      case 5 => Column5OfTile6(b);
    }
  }

  lemma TileOf7(a: nat, b: nat)
    requires a < 6 && b < 6
    ensures Inverts(7, a, b) == (Picture(7)[b][a] == '#')
  {
    hide Inverts, Picture;
    match a {
      case 0 => Column0OfTile7(b);
      case 1 => Column1OfTile7(b);
      case 2 => Column2OfTile7(b);
      case 3 => Column3OfTile7(b);
      case 4 => Column4OfTile7(b);
      case 5 => Column5OfTile7(b);
    }
  }

  // The three tiles column by column, each in a lemma of its own to keep the arithmetic apart.

  lemma Column0OfTile5(b: nat)
    requires b < 6
    ensures Inverts(5, 0, b) == (Picture(5)[b][0] == '#')
  {}

  lemma Column1OfTile5(b: nat)
    requires b < 6
    ensures Inverts(5, 1, b) == (Picture(5)[b][1] == '#')
  {}

  lemma Column2OfTile5(b: nat)
    requires b < 6
    ensures Inverts(5, 2, b) == (Picture(5)[b][2] == '#')
  {}

  lemma Column3OfTile5(b: nat)
    requires b < 6
    ensures Inverts(5, 3, b) == (Picture(5)[b][3] == '#')
  {}

  lemma Column4OfTile5(b: nat)
    requires b < 6
    ensures Inverts(5, 4, b) == (Picture(5)[b][4] == '#')
  {}

  lemma Column5OfTile5(b: nat)
    requires b < 6
    ensures Inverts(5, 5, b) == (Picture(5)[b][5] == '#')
  {}

  lemma Column0OfTile6(b: nat)
    requires b < 6
    ensures Inverts(6, 0, b) == (Picture(6)[b][0] == '#')
  {}

  lemma Column1OfTile6(b: nat)
    requires b < 6
    ensures Inverts(6, 1, b) == (Picture(6)[b][1] == '#')
  {}

  lemma Column2OfTile6(b: nat)
    requires b < 6
    ensures Inverts(6, 2, b) == (Picture(6)[b][2] == '#')
  {}

  lemma Column3OfTile6(b: nat)
    requires b < 6
    ensures Inverts(6, 3, b) == (Picture(6)[b][3] == '#')
  {}

  lemma Column4OfTile6(b: nat)
    requires b < 6
    ensures Inverts(6, 4, b) == (Picture(6)[b][4] == '#')
  {}

  lemma Column5OfTile6(b: nat)
    requires b < 6
    ensures Inverts(6, 5, b) == (Picture(6)[b][5] == '#')
  {}

  lemma Column0OfTile7(b: nat)
    requires b < 6
    ensures Inverts(7, 0, b) == (Picture(7)[b][0] == '#')
  {}

  lemma Column1OfTile7(b: nat)
    requires b < 6
    ensures Inverts(7, 1, b) == (Picture(7)[b][1] == '#')
  {}

  lemma Column2OfTile7(b: nat)
    requires b < 6
    ensures Inverts(7, 2, b) == (Picture(7)[b][2] == '#')
  {}

  lemma Column3OfTile7(b: nat)
    requires b < 6
    ensures Inverts(7, 3, b) == (Picture(7)[b][3] == '#')
  {}

  lemma Column4OfTile7(b: nat)
    requires b < 6
    ensures Inverts(7, 4, b) == (Picture(7)[b][4] == '#')
  {}

  lemma Column5OfTile7(b: nat)
    requires b < 6
    ensures Inverts(7, 5, b) == (Picture(7)[b][5] == '#')
  {}

  lemma TileSize(mask: nat)
    requires 5 <= mask < 8
    ensures |Picture(mask)| == PictureWidth(mask) == 6
  {}

  lemma ProductPictures(mask: nat, x: nat, y: nat)
    requires 5 <= mask < 8
    ensures Inverts(mask, x, y) == InPicture(mask, x, y)
  {
    hide Inverts, Picture;
    TileSize(mask);
    TileRepeats(mask, x, y);
    TileIsPicture(mask, x % 6, y % 6);
  }

  /** The formulas draw the pictures. */
  lemma InvertsIsPicture(mask: nat, x: nat, y: nat)
    requires mask < 8
    ensures Inverts(mask, x, y) == InPicture(mask, x, y)
  {
    hide Inverts, InPicture;
    match mask {
      case 0 => Picture0(x, y);
      case 1 => Picture1(x, y);
      case 2 => Picture2(x, y);
      case 3 => Picture3(x, y);
      case 4 => BrickPicture(x, y);
      case _ => ProductPictures(mask, x, y);
    }
  }

  /** The modules outside the function modules f, inverted where the picture of the mask is dark. */
  function Masked(f: seq<bool>, v: seq<bool>, side: nat, mask: nat, n: nat): (w: seq<bool>)
    requires |f| == |v| == side * side && n <= side * side && mask < 8
    ensures |w| == |v|
  {
    seq(side * side, k requires 0 <= k < side * side =>
      if k < n && !f[k] then v[k] != InPicture(mask, CellAt(side, k).x, CellAt(side, k).y) else v[k])
  }

  /** After masking, cell by cell. */
  lemma MaskedAt(f: seq<bool>, v: seq<bool>, side: nat, mask: nat, x: nat, y: nat)
    requires |f| == |v| == side * side && mask < 8 && x < side && y < side
    ensures 0 <= y * side + x < side * side
    ensures f[y * side + x] ==> Masked(f, v, side, mask, side * side)[y * side + x] == v[y * side + x]
    ensures !f[y * side + x] ==>
      (Masked(f, v, side, mask, side * side)[y * side + x] != v[y * side + x] <==> InPicture(mask, x, y))
  {
    hide InPicture;
    CellAtIndex(side, Cell(x, y));
    GridIndex(x, y, side, side);
  }

  lemma MaskedCells(f: seq<bool>, v: seq<bool>, side: nat, mask: nat)
    requires |f| == |v| == side * side && mask < 8
    ensures var w := Masked(f, v, side, mask, side * side);
      forall x: nat, y: nat :: x < side && y < side ==>
        var k := Index(side, Cell(x, y));
        w[k] == (v[k] != (!f[k] && InPicture(mask, x, y)))
  {
    hide InPicture, Masked;
    forall x: nat, y: nat | x < side && y < side
      ensures var k := Index(side, Cell(x, y));
        Masked(f, v, side, mask, side * side)[k] == (v[k] != (!f[k] && InPicture(mask, x, y)))
    {
      MaskedAt(f, v, side, mask, x, y);
    }
  }

  /** XORs the codeword modules with a mask pattern. */
  method ApplyMask(functionModules: array<bv8>, qr: array<bv8>, mask: nat)
    requires mask < 8 && functionModules != qr
    requires IsGrid(qr[..]) && IsGrid(functionModules[..]) && Side(functionModules[..]) == Side(qr[..])
    modifies qr
    ensures IsGrid(qr[..]) && Side(qr[..]) == old(Side(qr[..]))
    ensures var side := Side(qr[..]);
      View(qr[..]) == Masked(View(functionModules[..]), old(View(qr[..])), side, mask, side * side)
    ensures forall x: nat, y: nat :: x < Side(qr[..]) && y < Side(qr[..]) ==>
      var k := Index(Side(qr[..]), Cell(x, y));
      View(qr[..])[k] == (old(View(qr[..]))[k] != (!View(functionModules[..])[k] && InPicture(mask, x, y)))
  {
    hide IsGrid, Side, View, Inverts, InPicture, Masked, Index, CellAt;
    SideIsFirst(qr[..]);
    var qrsize := qr[0] as nat;
    ghost var f, v := View(functionModules[..]), View(qr[..]);
    MaskedNothing(f, v, qrsize, mask);
    for y := 0 to qrsize
      invariant IsGrid(qr[..]) && Side(qr[..]) == qrsize
      invariant RowStart(qrsize, y) <= |v| && View(qr[..]) == Masked(f, v, qrsize, mask, RowStart(qrsize, y))
    {
      RowStep(qrsize, y);
      for x := 0 to qrsize
        invariant IsGrid(qr[..]) && Side(qr[..]) == qrsize
        invariant RowStart(qrsize, y) + x <= |v| && View(qr[..]) == Masked(f, v, qrsize, mask, RowStart(qrsize, y) + x)
      {
        MaskedStep(f, v, qrsize, mask, Cell(x, y));
        var isFunction := GetModule(functionModules, x, y);
        if !isFunction {
          var val := GetModule(qr, x, y);
          var invert := Inverts(mask, x, y);
          InvertsIsPicture(mask, x, y);
          SetModule(qr, x, y, val != invert);
        }
      }
    }
    RowStep(qrsize, 0);
    MaskedCells(f, v, qrsize, mask);
  }

  function RowStart(side: nat, y: nat): nat {
    y * side
  }

  lemma RowStep(side: nat, y: nat)
    requires y < side
    ensures RowStart(side, y) + side == RowStart(side, y + 1) <= side * side && RowStart(side, side) == side * side
  {
    RowBelow(y, side, side);
  }

  lemma MaskedNothing(f: seq<bool>, v: seq<bool>, side: nat, mask: nat)
    requires |f| == |v| == side * side && mask < 8
    ensures Masked(f, v, side, mask, 0) == v
  {}

  lemma MaskedStep(f: seq<bool>, v: seq<bool>, side: nat, mask: nat, c: Cell)
    requires |f| == |v| == side * side && mask < 8 && c.x < side && c.y < side
    ensures var k := Index(side, c);
      var w := Masked(f, v, side, mask, k);
      k == RowStart(side, c.y) + c.x && w[k] == v[k]
      && Masked(f, v, side, mask, k + 1) == if f[k] then w else w[k := v[k] != InPicture(mask, c.x, c.y)]
  {
    hide InPicture;
    CellAtIndex(side, c);
  }

  lemma MaskUndoesItself(f: seq<bool>, v: seq<bool>, side: nat, mask: nat)
    requires |f| == |v| == side * side && mask < 8
    ensures Masked(f, Masked(f, v, side, mask, side * side), side, mask, side * side) == v
  {
    hide InPicture, CellAt;
  }

  /**
   What a reader recovers.  The generator marks the function modules f black,
   draws the codewords, redraws function modules at will (q), and masks.  A
   reader that knows f and the mask unmasks and reads the rest in scan order:
   it finds the codeword bits, then white.
   */
  lemma CodewordsSurviveMasking(f: seq<bool>, q: seq<bool>, side: nat, bits: seq<bool>, mask: nat)
    requires IsSide(side) && |f| == |q| == side * side && mask < 8
    requires forall k: nat :: k < side * side && !f[k] ==> q[k] == PlacedView(f, side, bits, ScanLength(side))[k]
    ensures var symbol := Masked(f, q, side, mask, side * side);
      ReadBack(Masked(f, symbol, side, mask, side * side), f, side, ScanLength(side))
      == Padded(bits, FreeBefore(f, side, ScanLength(side)))
  {
    hide InPicture, CellAt, IsSide, ScanLength, FreeBefore, ReadBack, Padded, Masked, Placed;
    MaskUndoesItself(f, q, side, mask);
    BitsReadBack(q, f, side, bits, ScanLength(side));
  }
}
