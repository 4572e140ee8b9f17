/** The deck: `generateEmojiArray` builds the pairs and `shuffleArray`
    permutes them in place. `Math.random` is replaced by a caller-supplied
    sequence `pick`, where `pick[i]` is the index that step `i` of the shuffle
    swaps with; `Math.floor(Math.random() * (i + 1))` always lies in `0..i`,
    which is what `ValidPicks` demands. */
module Deck {

  /** A card face: one of the heart glyphs, or JavaScript's `undefined` when
      the pair index runs past the end of the palette. */
  datatype Emoji = Glyph(text: string) | Undefined

  /** One element of the array built by `generateEmojiArray`: `{ id, emoji }`. */
  datatype DeckEntry = DeckEntry(id: int, emoji: Emoji)

  /** `heartsArray`: the 18 heart emojis, in source order. */
  const Hearts: seq<string> := [
    "\U{1F49C}", "\U{1F9E1}", "\U{1F49A}", "\U{1F90E}", "\U{1F49B}", "\U{1F90D}",
    "\U{1F499}", "\U{1F5A4}", "\U{1F494}", "\U{1F48C}", "\U{1F49F}", "\U{1F493}",
    "\U{1F497}", "\U{1F496}", "\U{1F495}", "\U{1F498}", "\U{1F49E}", "\U{1F49D}"]

  /** `heartsArray[i]`. */
  function HeartAt(i: int): (e: Emoji)
    ensures e.Glyph? <==> 0 <= i < 18
    ensures e.Glyph? ==> e.text == Hearts[i]
  {
    if 0 <= i < |Hearts| then Glyph(Hearts[i]) else Undefined
  }

  /** The palette holds 18 different glyphs, so within the palette two faces
      are equal exactly when their pair ids are. */
  lemma HeartsDistinct(i: int, k: int)
    requires 0 <= i < 18 && 0 <= k < 18
    ensures HeartAt(i) == HeartAt(k) <==> i == k
  {
  }

  /** Past the palette every face is `undefined`, and `undefined !== undefined`
      is false: all such cards match one another. */
  lemma FacesPastPaletteAllMatch(i: int, k: int)
    requires i >= 18 && k >= 18
    ensures HeartAt(i) == HeartAt(k)
  {
  }

  /** JavaScript's `%`, whose result takes the sign of the dividend. */
  function JsRem(a: int, b: int): (r: int)
    requires b > 0
    ensures a >= 0 ==> r == a % b
    ensures a < 0 ==> -b < r <= 0
  {
    if a >= 0 then a % b else -((-a) % b)
  }

  /** The bound `(columns*rows - (columns*rows % 2)) / 2` of the loop in
      `generateEmojiArray`: the dividend is always even. */
  function LoopBound(columns: int, rows: int): (b: int)
    ensures columns * rows >= 0 ==> b == (columns * rows) / 2
    ensures columns * rows < 0 ==> b <= 0
  {
    var cells := columns * rows;
    (cells - JsRem(cells, 2)) / 2
  }

  /** How many pairs `generateEmojiArray` pushes: half the cell count rounded
      down, and none when the cell count is not positive. */
  function PairCount(columns: int, rows: int): (n: nat)
    ensures columns * rows > 0 ==> n == (columns * rows) / 2
    ensures columns * rows <= 0 ==> n == 0
  {
    var bound := LoopBound(columns, rows);
    if bound > 0 then bound else 0
  }

  /** The length of the deck: the cell count rounded down to an even number
      (zero when the cell count is not positive). */
  function DeckSize(columns: int, rows: int): (n: nat)
    ensures n % 2 == 0
    ensures columns * rows > 0 ==> n == columns * rows - (columns * rows) % 2
    ensures columns * rows > 0 ==> n <= columns * rows && columns * rows - n < 2
    ensures columns * rows <= 0 ==> n == 0
  {
    2 * PairCount(columns, rows)
  }

  /** The `i`-th pair, pushed twice. */
  function PairEntry(i: int): DeckEntry
  {
    DeckEntry(i, HeartAt(i))
  }

  /** The array before shuffling: pairs 0, 0, 1, 1, ..., n-1, n-1. */
  function Ordered(n: nat): (s: seq<DeckEntry>)
    ensures |s| == 2 * n
  {
    if n == 0 then [] else Ordered(n - 1) + [PairEntry(n - 1), PairEntry(n - 1)]
  }

  /** `e` is one of the first `n` pairs, carrying the face of its id. */
  predicate IsPair(e: DeckEntry, n: nat)
  {
    0 <= e.id < n && e.emoji == HeartAt(e.id)
  }

  /** Each of the first `n` pair entries occurs exactly twice in `Ordered(n)`,
      and nothing else occurs. */
  lemma {:induction false} OrderedCounts(n: nat)
    ensures forall e :: multiset(Ordered(n))[e] == if IsPair(e, n) then 2 else 0
  {
    if n > 0 {
      OrderedCounts(n - 1);
      var last := PairEntry(n - 1);
      assert multiset(Ordered(n)) == multiset(Ordered(n - 1)) + multiset{last, last};
      forall e
        ensures multiset(Ordered(n))[e] == if IsPair(e, n) then 2 else 0
      {
        if e == last {
          assert !IsPair(e, n - 1);
        } else {
          assert IsPair(e, n) <==> IsPair(e, n - 1);
        }
      }
    }
  }

  /** Indices supplied in place of `Math.random`: step `i` swaps with `pick[i]`
      in `0..i`. */
  predicate ValidPicks(pick: seq<int>)
  {
    forall i :: 0 <= i < |pick| ==> 0 <= pick[i] <= i
  }

  /** Swap through a temporary, as the source does (a no-op when `i == j`). */
  function Swap(s: seq<DeckEntry>, i: nat, j: nat): (r: seq<DeckEntry>)
    requires i < |s| && j < |s|
    ensures |r| == |s| && r[i] == s[j] && r[j] == s[i]
    ensures forall k :: 0 <= k < |s| && k != i && k != j ==> r[k] == s[k]
  {
    s[i := s[j]][j := s[i]]
  }

  lemma SwapIsPermutation(s: seq<DeckEntry>, i: nat, j: nat)
    requires i < |s| && j < |s|
    ensures multiset(Swap(s, i, j)) == multiset(s)
  {
  }

  /** The Fisher-Yates steps for `i`, `i - 1`, ..., `1`. */
  function ShuffledDown(s: seq<DeckEntry>, pick: seq<int>, i: int): (r: seq<DeckEntry>)
    requires |pick| == |s| && ValidPicks(pick) && i < |s|
    decreases i
    ensures |r| == |s|
  {
    if i <= 0 then s else ShuffledDown(Swap(s, i, pick[i]), pick, i - 1)
  }

  /** The steps for `i` down to 1 touch no position above `i`: those already
      hold their final entries. */
  lemma {:induction false} ShuffledDownKeepsTail(s: seq<DeckEntry>, pick: seq<int>, i: int)
    requires |pick| == |s| && ValidPicks(pick) && -1 <= i < |s|
    ensures ShuffledDown(s, pick, i)[i + 1..] == s[i + 1..]
    decreases i
  {
    if i > 0 {
      var swapped := Swap(s, i, pick[i]);
      ShuffledDownKeepsTail(swapped, pick, i - 1);
      assert swapped[i + 1..] == s[i + 1..];
    }
  }

  /** The whole shuffle: steps from the last index down to 1. The last
      position receives the entry chosen by the first step. */
  function Shuffled(s: seq<DeckEntry>, pick: seq<int>): (r: seq<DeckEntry>)
    requires |pick| == |s| && ValidPicks(pick)
    ensures |r| == |s|
    ensures |s| > 0 ==> r[|s| - 1] == s[pick[|s| - 1]]
  {
    if |s| > 1 then
      ShuffledDownKeepsTail(Swap(s, |s| - 1, pick[|s| - 1]), pick, |s| - 2);
      ShuffledDown(s, pick, |s| - 1)
    else
      ShuffledDown(s, pick, |s| - 1)
  }

  lemma {:induction false} ShuffledDownIsPermutation(s: seq<DeckEntry>, pick: seq<int>, i: int)
    requires |pick| == |s| && ValidPicks(pick) && i < |s|
    ensures multiset(ShuffledDown(s, pick, i)) == multiset(s)
    decreases i
  {
    if i > 0 {
      var swapped := Swap(s, i, pick[i]);
      SwapIsPermutation(s, i, pick[i]);
      ShuffledDownIsPermutation(swapped, pick, i - 1);
    }
  }

  /** The shuffle is a permutation, whatever the supplied indices are. */
  lemma ShuffleIsPermutation(s: seq<DeckEntry>, pick: seq<int>)
    requires |pick| == |s| && ValidPicks(pick)
    ensures |Shuffled(s, pick)| == |s|
    ensures multiset(Shuffled(s, pick)) == multiset(s)
  {
    ShuffledDownIsPermutation(s, pick, |s| - 1);
  }

  /** `shuffleArray(array)`: Fisher-Yates in place; returns the same array. */
  method ShuffleArray(a: array<DeckEntry>, pick: seq<int>) returns (r: array<DeckEntry>)
    requires |pick| == a.Length && ValidPicks(pick)
    modifies a
    ensures r == a
    ensures a[..] == Shuffled(old(a[..]), pick)
    ensures multiset(a[..]) == multiset(old(a[..]))
  {
    var i := a.Length - 1;
    while i > 0
      invariant i < a.Length
      invariant ShuffledDown(a[..], pick, i) == Shuffled(old(a[..]), pick)
    {
      var j := pick[i];
      ghost var before := a[..];
      var temp := a[i];
      a[i] := a[j];
      a[j] := temp;
      assert a[..] == Swap(before, i, j);
      i := i - 1;
    }
    ShuffleIsPermutation(old(a[..]), pick);
    r := a;
  }

  /** The deck dealt for a grid: the ordered pairs, shuffled. It has
      `DeckSize` entries; each pair id below `PairCount` occurs exactly twice
      with its palette face, and no other entry occurs. */
  function Deal(columns: int, rows: int, pick: seq<int>): (d: seq<DeckEntry>)
    requires |pick| == DeckSize(columns, rows) && ValidPicks(pick)
    ensures |d| == DeckSize(columns, rows)
    ensures forall e :: multiset(d)[e] == if IsPair(e, PairCount(columns, rows)) then 2 else 0
  {
    ShuffleIsPermutation(Ordered(PairCount(columns, rows)), pick);
    OrderedCounts(PairCount(columns, rows));
    Shuffled(Ordered(PairCount(columns, rows)), pick)
  }

  /** Every entry of a dealt deck is one of its pairs. */
  lemma DealHoldsOnlyPairs(columns: int, rows: int, pick: seq<int>, k: int)
    requires |pick| == DeckSize(columns, rows) && ValidPicks(pick) && 0 <= k < DeckSize(columns, rows)
    ensures IsPair(Deal(columns, rows, pick)[k], PairCount(columns, rows))
  {
    var d := Deal(columns, rows, pick);
    assert d[k] in multiset(d);
  }

  /** `generateEmojiArray()`: push every pair twice, then shuffle. */
  method GenerateEmojiArray(columns: int, rows: int, pick: seq<int>) returns (r: array<DeckEntry>)
    requires |pick| == DeckSize(columns, rows) && ValidPicks(pick)
    ensures r.Length == DeckSize(columns, rows)
    ensures r[..] == Deal(columns, rows, pick)
    ensures forall e :: multiset(r[..])[e] == if IsPair(e, PairCount(columns, rows)) then 2 else 0
  {
    var emojis: seq<DeckEntry> := [];
    var i := 0;
    while i < LoopBound(columns, rows)
      invariant 0 <= i <= PairCount(columns, rows)
      invariant emojis == Ordered(i)
    {
      emojis := emojis + [DeckEntry(i, HeartAt(i))];
      emojis := emojis + [DeckEntry(i, HeartAt(i))];
      i := i + 1;
    }
    var a := new DeckEntry[|emojis|](k requires 0 <= k < |emojis| => emojis[k]);
    assert a[..] == Ordered(PairCount(columns, rows));
    r := ShuffleArray(a, pick);
  }
}
