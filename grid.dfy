/** The grid built by `createCards`: the cell in column `i` and row `j`
    shows deck entry `columns*j + i`, and holds a card only when that index
    lies inside the deck. Cards are keyed by their position, as the DOM ids
    `"i j"` key them in the source. */
module Grid {
  import opened Deck

  datatype Pos = Pos(column: int, row: int)

  /** `new Card(emoji, row, column, element)`; `isOpened` stands for the
      element's `card-opened`/`card-closed` class. */
  datatype Card = Card(emoji: Emoji, row: int, column: int, isOpened: bool)

  /** The deck index shown by the cell in column `i`, row `j`. */
  function Index(columns: int, i: int, j: int): (k: int)
    requires 0 <= i < columns && 0 <= j
    ensures k >= i >= 0
  {
    columns * j + i
  }

  /** Cells visited so far by the nested loops of `createCards`: all of the
      columns before `i`, and the rows before `j` in column `i`. */
  predicate Visited(c: int, r: int, i: int, j: int)
  {
    c < i || (c == i && r < j)
  }

  /** The cards placed once the loops have visited the cells before (`i`, `j`). */
  function LayoutUpTo(columns: int, rows: int, deck: seq<DeckEntry>, i: int, j: int): (m: map<Pos, Card>)
    ensures i <= 0 && j <= 0 ==> m == map[]
  {
    map c, r | 0 <= c < columns && 0 <= r < rows && Visited(c, r, i, j) && Index(columns, c, r) < |deck|
      :: Pos(c, r) := Card(deck[Index(columns, c, r)].emoji, r, c, false)
  }

  /** The cards of a whole `createCards` run, all closed. */
  function Layout(columns: int, rows: int, deck: seq<DeckEntry>): (m: map<Pos, Card>)
    ensures forall p :: p in m ==> !m[p].isOpened && m[p].column == p.column && m[p].row == p.row
  {
    LayoutUpTo(columns, rows, deck, columns, 0)
  }

  /** Visiting cell (`i`, `j`) adds its card exactly when its index is inside the deck. */
  lemma LayoutStep(columns: int, rows: int, deck: seq<DeckEntry>, i: int, j: int)
    requires 0 <= i < columns && 0 <= j < rows
    ensures LayoutUpTo(columns, rows, deck, i, j + 1) ==
            if Index(columns, i, j) < |deck|
            then LayoutUpTo(columns, rows, deck, i, j)[Pos(i, j) := Card(deck[Index(columns, i, j)].emoji, j, i, false)]
            else LayoutUpTo(columns, rows, deck, i, j)
  {
    var before, after := LayoutUpTo(columns, rows, deck, i, j), LayoutUpTo(columns, rows, deck, i, j + 1);
    if Index(columns, i, j) < |deck| {
      var card := Card(deck[Index(columns, i, j)].emoji, j, i, false);
      assert after.Keys == before.Keys + {Pos(i, j)};
      assert after == before[Pos(i, j) := card];
    } else {
      assert after.Keys == before.Keys;
    }
  }

  /** Once every row of column `i` is visited, the next column starts. */
  lemma LayoutColumnDone(columns: int, rows: int, deck: seq<DeckEntry>, i: int, j: int)
    requires j >= rows
    ensures LayoutUpTo(columns, rows, deck, i, j) == LayoutUpTo(columns, rows, deck, i + 1, 0)
  {
    var before, after := LayoutUpTo(columns, rows, deck, i, j), LayoutUpTo(columns, rows, deck, i + 1, 0);
    assert before.Keys == after.Keys;
  }

  /** When the column loop does not run, nothing is placed. */
  lemma LayoutNoColumns(columns: int, rows: int, deck: seq<DeckEntry>)
    requires columns <= 0
    ensures LayoutUpTo(columns, rows, deck, 0, 0) == Layout(columns, rows, deck) == map[]
  {
  }

  /** The loops of `createCards`, columns outside, rows inside; a card is
      placed only where `emojis[columns*j + i]` exists. */
  method PlaceCards(columns: int, rows: int, deck: seq<DeckEntry>) returns (cards: map<Pos, Card>)
    ensures cards == Layout(columns, rows, deck)
  {
    cards := map[];
    var i := 0;
    if columns <= 0 {
      LayoutNoColumns(columns, rows, deck);
    }
    while i < columns
      invariant 0 <= i && (columns >= 0 ==> i <= columns)
      invariant cards == LayoutUpTo(columns, rows, deck, i, 0)
    {
      cards := PlaceColumn(columns, rows, deck, i, cards);
      i := i + 1;
    }
  }

  /** The inner loop of `createCards`: the rows of column `i`. */
  method PlaceColumn(columns: int, rows: int, deck: seq<DeckEntry>, i: int, before: map<Pos, Card>)
    returns (cards: map<Pos, Card>)
    requires 0 <= i < columns && before == LayoutUpTo(columns, rows, deck, i, 0)
    ensures cards == LayoutUpTo(columns, rows, deck, i + 1, 0)
  {
    cards := before;
    var j := 0;
    while j < rows
      invariant 0 <= j && (rows >= 0 ==> j <= rows)
      invariant cards == LayoutUpTo(columns, rows, deck, i, j)
    {
      LayoutStep(columns, rows, deck, i, j);
      var k := Index(columns, i, j);
      if k < |deck| {
        cards := cards[Pos(i, j) := Card(deck[k].emoji, j, i, false)];
      }
      j := j + 1;
    }
    LayoutColumnDone(columns, rows, deck, i, j);
  }

  /** Cell (`i`, `j`) holds a card exactly when its index lies inside the
      deck; the card shows that deck entry, remembers row `j` and column `i`,
      and starts closed. No card lies outside the grid. */
  lemma LayoutCells(columns: int, rows: int, deck: seq<DeckEntry>)
    ensures forall i, j :: 0 <= i < columns && 0 <= j < rows ==>
              (Pos(i, j) in Layout(columns, rows, deck) <==> Index(columns, i, j) < |deck|)
    ensures forall p :: p in Layout(columns, rows, deck) ==>
              0 <= p.column < columns && 0 <= p.row < rows && Index(columns, p.column, p.row) < |deck| &&
              Layout(columns, rows, deck)[p] == Card(deck[Index(columns, p.column, p.row)].emoji, p.row, p.column, false)
  {
  }

  /** Division by `columns` recovers the row and the column of an index. */
  lemma IndexDivMod(columns: int, i: int, j: int)
    requires 0 <= i < columns && 0 <= j
    ensures Index(columns, i, j) / columns == j && Index(columns, i, j) % columns == i
  {
    var k := Index(columns, i, j);
    var q, m := k / columns, k % columns;
    assert columns * (j - q) == m - i;
    MulAwayFromZero(columns, j - q);
  }

  /** A non-zero multiple of a positive number is at least that number away from zero. */
  lemma MulAwayFromZero(a: int, d: int)
    requires a > 0
    ensures d >= 1 ==> a * d >= a
    ensures d <= -1 ==> a * d <= -a
  {
    if d >= 1 {
      MulMonotone(a, 1, d);
    } else if d <= -1 {
      MulMonotone(a, d, -1);
    }
  }

  /** A product grows with its factor. */
  lemma MulMonotone(a: int, x: int, y: int)
    requires a >= 0 && x <= y
    ensures a * x <= a * y
  {
    assert a * y - a * x == a * (y - x);
  }

  /** The position of deck index `k` in a grid of `columns` columns. */
  function PosOf(columns: int, k: int): Pos
    requires columns > 0
  {
    Pos(k % columns, k / columns)
  }

  /** Division and remainder together recover the index. */
  lemma PosOfInjective(columns: int, a: int, b: int)
    requires columns > 0 && 0 <= a && 0 <= b && PosOf(columns, a) == PosOf(columns, b)
    ensures a == b
  {
    assert a == columns * (a / columns) + a % columns;
    assert b == columns * (b / columns) + b % columns;
  }

  /** Positions of the deck indices below `n`. */
  function Positions(columns: int, n: nat): set<Pos>
    requires columns > 0
  {
    set k | 0 <= k < n :: PosOf(columns, k)
  }

  /** Different indices have different positions, so `n` indices fill `n` cells. */
  lemma {:induction false} PositionsCount(columns: int, n: nat)
    requires columns > 0
    ensures |Positions(columns, n)| == n
  {
    if n > 0 {
      PositionsCount(columns, n - 1);
      assert Positions(columns, n) == Positions(columns, n - 1) + {PosOf(columns, n - 1)};
      forall k | 0 <= k < n - 1
        ensures PosOf(columns, k) != PosOf(columns, n - 1)
      {
        if PosOf(columns, k) == PosOf(columns, n - 1) {
          PosOfInjective(columns, k, n - 1);
        }
      }
    }
  }

  /** With positive dimensions and a deck that fits the grid, the cards are
      exactly the positions of the deck indices. */
  lemma LayoutKeys(columns: int, rows: int, deck: seq<DeckEntry>)
    requires columns > 0 && rows > 0 && |deck| <= columns * rows
    ensures Layout(columns, rows, deck).Keys == Positions(columns, |deck|)
  {
    forall p | p in Layout(columns, rows, deck)
      ensures p in Positions(columns, |deck|)
    {
      CardHasPosition(columns, rows, deck, p);
    }
    forall k | 0 <= k < |deck|
      ensures PosOf(columns, k) in Layout(columns, rows, deck)
    {
      PositionHasCard(columns, rows, deck, k);
    }
  }

  lemma CardHasPosition(columns: int, rows: int, deck: seq<DeckEntry>, p: Pos)
    requires columns > 0 && p in Layout(columns, rows, deck)
    ensures p in Positions(columns, |deck|)
  {
    LayoutCells(columns, rows, deck);
    var k := Index(columns, p.column, p.row);
    IndexDivMod(columns, p.column, p.row);
    assert PosOf(columns, k) == p;
  }

  lemma PositionHasCard(columns: int, rows: int, deck: seq<DeckEntry>, k: int)
    requires columns > 0 && rows > 0 && |deck| <= columns * rows && 0 <= k < |deck|
    ensures PosOf(columns, k) in Layout(columns, rows, deck)
  {
    var c, r := k % columns, k / columns;
    assert k == columns * r + c;
    if r >= rows {
      MulMonotone(columns, rows, r);
    }
    assert Index(columns, c, r) == k;
    LayoutCells(columns, rows, deck);
  }

  /** After `createCards` there are exactly as many cards as deck entries. */
  lemma LayoutSize(columns: int, rows: int, deck: seq<DeckEntry>)
    requires columns > 0 && rows > 0 && |deck| <= columns * rows
    ensures |Layout(columns, rows, deck)| == |deck|
  {
    LayoutKeys(columns, rows, deck);
    PositionsCount(columns, |deck|);
    assert |Layout(columns, rows, deck)| == |Layout(columns, rows, deck).Keys|;
  }

  /** The last cell has the largest index, one below the cell count. */
  lemma LastIndex(columns: int, rows: int, i: int, j: int)
    requires 0 <= i < columns && 0 <= j < rows
    ensures Index(columns, i, j) <= columns * rows - 1
    ensures Index(columns, i, j) == columns * rows - 1 <==> i == columns - 1 && j == rows - 1
  {
    MulMonotone(columns, j, rows - 1);
    assert columns * rows - 1 == Index(columns, columns - 1, rows - 1);
    if Index(columns, i, j) == columns * rows - 1 {
      IndexDivMod(columns, i, j);
      IndexDivMod(columns, columns - 1, rows - 1);
    }
  }

  /** With a deck from `generateEmojiArray`, a cell of an odd-sized grid is
      empty exactly when it is the last one, (columns-1, rows-1); an
      even-sized grid is full. */
  lemma OddGridLeavesLastCellEmpty(columns: int, rows: int, deck: seq<DeckEntry>, i: int, j: int)
    requires columns > 0 && rows > 0 && |deck| == DeckSize(columns, rows)
    requires 0 <= i < columns && 0 <= j < rows
    ensures Pos(i, j) !in Layout(columns, rows, deck) <==>
            (columns * rows) % 2 == 1 && i == columns - 1 && j == rows - 1
  {
    LayoutCells(columns, rows, deck);
    LastIndex(columns, rows, i, j);
    MulMonotone(columns, 1, rows);
  }
}
