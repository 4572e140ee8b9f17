# Match the heart — a verified model of the game core

Match the heart is a browser memory game. A grid of face-down cards hides pairs of
heart emojis. The player opens two cards at a time and must match every pair
before a countdown runs out. This project models the part of `js/index.js` that
holds game logic: the countdown `Timer`, the deck (`generateEmojiArray`,
`shuffleArray`), the grid layout (`createCards`), and the `MatchGrid` controller's
reaction to clicks, ticks, visibility changes and the start and stop buttons.

Each component is written twice. A pure state function gives the specification
(`Timers.Ticked`, `Game.Clicked`, …). An imperative class or method performs the
same step and proves that its new state is that function of its old state
(`Timers.Timer`, `Deck.ShuffleArray`, `Grid.PlaceCards`, `Game.MatchGrid`). The
properties are lemmas about the state functions.

The controller has two invariants. The class maintains the counting
invariant of `Game`: timer, cards left and buttons. The `References` module
adds the grid invariant, which ties `firstOpenedCard` and the cards waiting
for a revert to the grid. It is proved for the `Game.Step` transition; each
handler method equals that transition. `Behaviour` states what the events do
in every reachable state.

Modelling choices:

- **Intervals.** `setInterval`/`clearInterval` become two fields. `running` says
  whether the interval whose handle the timer holds is live. `orphans` counts
  intervals still live whose handle was overwritten. Neither `startTimer` nor
  `continueTimer` checks whether the timer already runs, so calling either on
  a running timer loses the old handle, and no later pause can stop that
  interval. The page itself never does this: the start handler stops the
  timer first, and `hidden` and visible `visibilitychange` events alternate,
  so the timer is always paused when the visible one arrives. The model lets
  visibility events come in any order, so the leak is a property of the
  `Timer` class (`Timers.ContinueWhileRunningLeaks`), not of a game run.
- **Ticks.** One interval firing is one explicit call. The timer's `action`
  callback is not stored. `RunTimer` returns whether it fired, and
  `MatchGrid.OnInterval` then runs `stopGame`, the only action the game installs.
- **Randomness.** `Math.random` in the shuffle is replaced by a supplied
  sequence `pick`, where step `i` swaps with `pick[i]` in `0..i`.
- **Card identity.** Cards are identified by their position and by the
  `createCards` run that made them (`generation`). Each run empties the game
  container, so older cards are detached from the page. `firstOpenedCard` and
  pending reverts can still refer to them.
- **The 500 ms wait.** A mismatching click appends its card to `pending`. The
  `DelayElapsed` event runs the rest of the oldest handler; all waits have the
  same length, so they end in order. If `firstOpenedCard` is null by then,
  `this.firstOpenedCard.close()` throws and the rest of that handler does not run.
- **Buttons.** The `disabled` flags of the start and stop buttons are part of
  the state, because they decide which clicks can happen. The invariant proves
  they always mirror `isPlaying`.
- **Integers.** Form values are taken as integers. The pair-count loop bound
  uses JavaScript's truncating `%` (`Deck.JsRem`), which matters for a negative
  cell count.

The code keeps these behaviours, and the model proves them rather than
correcting them:

- `setSeconds(0)` is accepted, but the countdown then never fires.
- `startTimer` with negative seconds still starts an interval.
- Starting a game keeps `firstOpenedCard` and the pending reverts. A stale
  first card can then "match" a card of the new grid.
- A third card clicked during a mismatch wait can match the first card. When
  the wait ends, the handler throws and the second card stays open for good.
- Past the 18 hearts every face is `undefined`, and any two such cards match.

Behaviours the code does not have:

- A negative seconds value raises no error. The timer only pauses and resets to
  its old limit, and the start goes on.
- A pair index past the palette raises no error. Its face is `undefined`.
- Resuming does not check whether the timer already runs.
- There is no separate "matched" card state: a matched card simply stays opened.
- A new game does not cancel pending reverts.

## Model

| member | source | states |
|---|---|---|
| `Timers.WithSeconds` | js/index.js:58-67 | a non-negative value sets both the limit and the countdown to it; a negative value keeps the limit, pauses, and resets the countdown to the limit |
| `Timers.Stopped` | js/index.js:52-56 | stopping pauses the stored interval, leaves orphaned intervals alone, keeps the limit and resets the countdown to it |
| `Timers.Paused` | js/index.js:48-50 | pausing clears only the held interval: nothing runs through the handle, orphans, limit and countdown are unchanged |
| `Timers.Continued` | js/index.js:44-46 | resuming always arms a new interval and keeps the countdown; a running interval is orphaned |
| `Timers.Armed` | js/index.js:41 | storing a new interval handle makes the timer run and orphans the interval it held if that one was live |
| `Timers.Started` | js/index.js:39-42 | an interval is running afterwards even when the seconds were rejected; a non-negative value becomes limit and countdown, a negative one restores the old limit; a running interval is orphaned unless the value was rejected, since rejection stops the timer first |
| `Timers.Ticked` | js/index.js:30-37 | a tick fires the callback exactly when the countdown was 1; firing means stopped and reset; otherwise the countdown drops by one and nothing else changes; the timer invariant is kept |
| `Timers.PausePreservesCountdown` | js/index.js:48-50 | pausing stops the interval, changes neither the countdown nor the limit, and is idempotent |
| `Timers.InvPreserved` | js/index.js:30-67 | every timer operation keeps: limit ≥ 0, countdown ≤ limit, countdown > 0 whenever the limit is |
| `Timers.CountdownFiresOnce` | js/index.js:30-37 | from a positive countdown n, the first n−1 ticks only count down and the n-th fires once and stops the timer |
| `Timers.StartThenCountdown` | js/index.js:30-42 | after `startTimer(n)` with n > 0, k ticks leave n−k seconds and fire nothing for k < n; the n-th tick fires exactly once and stops the timer |
| `Timers.ZeroLimitNeverFires` | js/index.js:31-33 | from a countdown at or below zero, k ticks lower it by k and never fire the callback |
| `Timers.ContinueWhileRunningLeaks` | js/index.js:44-46 | `continueTimer` on a running timer orphans the running interval, so a later pause still leaves one ticking |
| `Timers.Timer.constructor` | js/index.js:25-28 | a new timer has limit and countdown equal to the given seconds and no interval |
| `Timers.Timer.RunTimer` | js/index.js:30-37 | performs `Ticked` on the object and reports whether the action is due |
| `Timers.Timer.StartTimer` | js/index.js:39-42 | performs `Started` on the object |
| `Timers.Timer.ContinueTimer` | js/index.js:44-46 | arms a new interval, orphaning a running one |
| `Timers.Timer.PauseTimer` | js/index.js:48-50 | performs `Paused` on the object |
| `Timers.Timer.StopTimer` | js/index.js:52-56 | performs `Stopped` through `pauseTimer` and `setSeconds(secondsLimit)` |
| `Timers.Timer.SetSeconds` | js/index.js:58-67 | performs `WithSeconds`, rejecting a negative value through `stopTimer` |
| `Deck.HeartAt` | js/index.js:2 | the face of pair i is the i-th heart for i in 0..17 and `undefined` otherwise |
| `Deck.HeartsDistinct` | js/index.js:2 | the 18 hearts are pairwise different, so faces within the palette are equal exactly when the ids are |
| `Deck.FacesPastPaletteAllMatch` | js/index.js:151-152 | any two pair ids past the palette get the same (`undefined`) face |
| `Deck.JsRem` | js/index.js:150 | JavaScript's remainder: Euclidean for a non-negative dividend, in (−b, 0] for a negative one |
| `Deck.LoopBound` | js/index.js:150 | the loop bound is half the cell count rounded down for a non-negative cell count and not positive otherwise |
| `Deck.PairCount` | js/index.js:150 | the loop pushes half the cell count rounded down, and nothing when the cell count is not positive |
| `Deck.DeckSize` | js/index.js:150-153 | the deck length is even and equals `columns*rows - (columns*rows % 2)` for a positive cell count, at most one below it, and zero otherwise |
| `Deck.Ordered` | js/index.js:149-153 | the unshuffled array holds two entries per pair |
| `Deck.OrderedCounts` | js/index.js:149-153 | each entry `{id, heartsArray[id]}` with id below the pair count occurs exactly twice, nothing else occurs |
| `Deck.Swap` | js/index.js:250-252 | the swap through a temporary exchanges positions i and j and leaves every other position unchanged |
| `Deck.SwapIsPermutation` | js/index.js:250-252 | a swap keeps the multiset of entries |
| `Deck.ShuffledDown` | js/index.js:248-253 | the loop steps from index i down to 1 keep the length |
| `Deck.ShuffledDownKeepsTail` | js/index.js:248-253 | the steps from i down to 1 never touch a position above i, so each position is final once the loop has passed it |
| `Deck.Shuffled` | js/index.js:247-255 | the shuffle keeps the length and puts the entry chosen by its first step in the last position |
| `Deck.ShuffleIsPermutation` | js/index.js:247-255 | the Fisher–Yates shuffle keeps length and multiset of elements for any supplied indices |
| `Deck.ShuffleArray` | js/index.js:247-255 | shuffles in place, returns the same array, the result is the Fisher–Yates function of the old contents and a permutation of them |
| `Deck.Deal` | js/index.js:148-155 | the dealt deck has `DeckSize` entries; every id below the pair count occurs exactly twice with its heart, no other entry occurs |
| `Deck.DealHoldsOnlyPairs` | js/index.js:148-155 | every entry of a dealt deck is one of its pairs with its palette face |
| `Deck.GenerateEmojiArray` | js/index.js:148-155 | the returned array is the dealt deck: right length, each pair id exactly twice with its heart, nothing else |
| `Grid.Index` | js/index.js:164 | the deck index of cell (i, j) is not negative |
| `Grid.LayoutUpTo` | js/index.js:162-163 | before the loops visit any cell, no card is placed |
| `Grid.Layout` | js/index.js:162-179 | every card placed by `createCards` starts closed and remembers the row and column of its own cell |
| `Grid.PlaceCards` | js/index.js:162-179 | the nested loops produce exactly the layout map |
| `Grid.PlaceColumn` | js/index.js:163-178 | the inner loop adds exactly the cards of column `i` |
| `Grid.PositionsCount` | js/index.js:162-164 | different deck indices lie in different cells |
| `Grid.LayoutCells` | js/index.js:162-179 | cell (i, j) holds a card iff `columns*j+i` is inside the deck; the card shows that entry, has row j, column i and starts closed; no card lies outside the grid |
| `Grid.LayoutSize` | js/index.js:157-180 | with positive dimensions and a deck that fits, there are exactly as many cards as deck entries |
| `Grid.OddGridLeavesLastCellEmpty` | js/index.js:162-164 | with a generated deck, a cell is empty iff the cell count is odd and the cell is (columns−1, rows−1) |
| `Game.Dealt` | js/index.js:157-180 | `createCards` starts a new generation of cards, sets `cardsLeft` to the deck size and changes nothing but the grid |
| `Game.Initial` | js/index.js:91-146 | the constructed controller is not playing, has start enabled and stop disabled, a stopped timer at the configured limit, no first card, no pending revert, and `cardsLeft` equal to the deck size |
| `Game.Stopped` | js/index.js:218-224 | `stopGame` ends the game, enables start, disables stop, pauses the timer and resets it to its limit; the grid and the references are untouched |
| `Game.Started` | js/index.js:106-125 | the start handler plays, disables start, enables stop, runs the timer, deals a new generation with `cardsLeft` the deck size, and keeps `firstOpenedCard` and the pending reverts |
| `Game.TimerTicked` | js/index.js:30-37 | a tick from one second ends the game with the timer stopped and reset; any other tick only lowers the countdown; cards and references are untouched |
| `Game.VisibilityChanged` | js/index.js:134-140 | hiding pauses; showing resumes while playing and changes nothing otherwise; the countdown and everything but the timer are untouched |
| `Game.Opened` | js/index.js:78-81 | `open()` marks the card opened and changes nothing else of it or of the controller |
| `Game.Closed` | js/index.js:83-86 | `close()` marks a card of the current grid closed, keeps the set of cards, changes nothing else, and does nothing to a detached card |
| `Game.Clicked` | js/index.js:182-206 | a click keeps the grid's cells and generation, opens the card while a game is on, lowers `cardsLeft` by 0 or 2, and adds at most the clicked card to the pending reverts |
| `Game.Reverted` | js/index.js:191-203 | the end of the oldest wait removes it and leaves no first card; when the first card was already null the handler throws before closing anything, so the cards are untouched; only cards, pending reverts and the first card change |
| `Game.InitialInv` | js/index.js:91-146 | the constructed controller satisfies the counting invariant, is not playing, has no first card and `cardsLeft` equal to the deck length |
| `Game.DealtLayout` | js/index.js:157-180 | after `createCards`, `cardsLeft` is the deck length, a non-empty grid has at least two cards left, and every card sits at its own position, closed |
| `Game.StoppedInv` | js/index.js:218-224 | `stopGame` keeps the counting invariant (timer invariant, `cardsLeft` even and ≥ 0, ≥ 2 while playing on a non-empty grid, buttons mirror `isPlaying`) |
| `Game.StartedInv` | js/index.js:106-125 | the start handler keeps the counting invariant |
| `Game.TimerTickedInv` | js/index.js:103 | a tick, with `stopGame` as its action, keeps the counting invariant |
| `Game.VisibilityChangedInv` | js/index.js:134-140 | the visibility handler keeps the counting invariant |
| `Game.ClickedInv` | js/index.js:182-206 | a card click keeps the counting invariant: a match leaving fewer than two cards stops the game |
| `Game.ClosedKeeps` | js/index.js:83-86 | `close()` changes only the opened flag of a card of the current grid, and nothing else |
| `Game.RevertedInv` | js/index.js:191-203 | the end of a mismatch wait keeps the counting invariant |
| `References.WaitingAppend` | js/index.js:191 | a handler that starts waiting adds its card to the cards waiting for a revert |
| `References.WaitingOlder` | js/index.js:157-160 | after a new grid is dealt, no waiting handler refers to a card of it |
| `References.InitialConsistent` | js/index.js:91-146 | the constructed controller satisfies the full invariant |
| `References.GridFrame` | js/index.js:103-140 | events that leave the grid and the references alone keep the grid invariant |
| `References.StartedGridInv` | js/index.js:106-125 | after a start every kept reference is to an older grid and every card sits at its own position |
| `References.OpenedGridInv` | js/index.js:185 | opening a closed card keeps the grid invariant; that card was neither waiting nor the first card |
| `References.ClickFirstInv` | js/index.js:187 | remembering the first card keeps the grid invariant |
| `References.ClickMismatchInv` | js/index.js:189-191 | a mismatching click adds a card that was not waiting, keeping each waiting card opened and waiting once |
| `References.ClickMatchInv` | js/index.js:194-203 | a matching click keeps the grid invariant |
| `References.ClickedGridInv` | js/index.js:182-206 | any card click keeps the grid invariant |
| `References.DequeueGridInv` | js/index.js:191-203 | the handler that resumes was the only one waiting for its card |
| `References.CloseGridInv` | js/index.js:83-86 | closing a card that is not waiting keeps the grid invariant |
| `References.ClosedIgnoresFirst` | js/index.js:83-86 | `close()` does not depend on `firstOpenedCard` |
| `References.RevertedGridInv` | js/index.js:191-203 | the end of a wait closes the first card and its own card only; every other waiting card stays opened |
| `References.StepKeepsInvariant` | js/index.js:103-206 | every event that can reach the controller maps a consistent state to a consistent one: the counting invariant, every card at its position, no reference newer than the grid, waiting cards opened and waiting once, and a current first card opened, with its face, and not waiting |
| `Behaviour.ClickIgnoredExactly` | js/index.js:184-185 | a click changes nothing iff the card is already opened or no game is on; otherwise the card opens |
| `Behaviour.FirstClickRemembersCard` | js/index.js:185-187 | with no first card, the click opens the card and makes it the first card; nothing else changes |
| `Behaviour.MatchKeepsPairOpen` | js/index.js:194-203 | on equal faces both cards stay opened, `cardsLeft` drops by 2, the first card is cleared, and the game stops with the timer reset iff fewer than two cards are left |
| `Behaviour.LastPairWins` | js/index.js:196-200 | matching the last pair ends the game with no cards left and the timer stopped and reset |
| `Behaviour.MismatchThenRevertClosesBoth` | js/index.js:188-204 | on different faces both cards are opened and the first card stays set during the wait; afterwards both are closed, the first card is cleared, and the grid is as before |
| `Behaviour.ClickKeepsOpenCards` | js/index.js:182-206 | a click never closes a card |
| `Behaviour.RevertKeepsOtherCards` | js/index.js:191-203 | the end of a wait closes only the first card and the waiting card |
| `Behaviour.OpenCardsStayOpen` | js/index.js:182-206 | outside a restart, only the current first card or a card waiting for a revert can close, so matched cards stay opened |
| `Behaviour.OverlappingRevealLeavesCardOpen` | js/index.js:189-203 | a third card matching the first during a mismatch wait leaves the second card opened with no reference left to close it |
| `Behaviour.StartKeepsStaleReferences` | js/index.js:106-125 | starting a game keeps `firstOpenedCard` and the pending reverts, now referring to detached cards |
| `Behaviour.StaleFirstCardMatches` | js/index.js:187-196 | a card of the new grid with the stale first card's face counts as a match: `cardsLeft` drops by 2 while only that card opens |
| `Behaviour.StartDealsNewGame` | js/index.js:106-125 | after start: playing, timer running from the configured seconds (old limit when negative), `cardsLeft` is the deck length, the grid is the layout of the dealt deck, with as many cards as `cardsLeft`, and only the last cell of an odd grid is empty |
| `Behaviour.TickEndsGameAtZero` | js/index.js:103 | a tick reaching zero is exactly `stopGame`; any other tick only lowers the countdown |
| `Behaviour.VisibilityPausesAndResumes` | js/index.js:134-140 | hiding pauses the timer; showing resumes it only while playing; nothing but the timer changes |
| `Game.MatchGrid.constructor` | js/index.js:91-146 | builds the initial controller state with a fresh timer and the counting invariant |
| `Game.MatchGrid.CreateCards` | js/index.js:157-180 | deals a deck, lays out its cards and sets `cardsLeft` to its length in a new generation |
| `Game.MatchGrid.StopGame` | js/index.js:218-224 | stops and resets the timer, ends the game, enables start and disables stop |
| `Game.MatchGrid.OnStartClick` | js/index.js:106-125 | performs the start transition and keeps the counting invariant |
| `Game.MatchGrid.OnStopClick` | js/index.js:127-130 | performs `stopGame` and keeps the counting invariant |
| `Game.MatchGrid.OnInterval` | js/index.js:41 | runs one tick and the expiry action when due, keeping the counting invariant |
| `Game.MatchGrid.OnVisibilityChange` | js/index.js:134-140 | pauses or resumes the timer as the handler does and keeps the counting invariant |
| `Game.MatchGrid.OnCardClick` | js/index.js:183-203 | performs the click transition up to the mismatch wait and keeps the counting invariant |
| `Game.MatchGrid.Close` | js/index.js:83-86 | closes a card of the current grid; a detached card changes nothing visible |
| `Game.MatchGrid.OnDelayElapsed` | js/index.js:191-203 | resumes the oldest waiting handler and keeps the counting invariant |

## Left out

- Rendering is not modelled. This covers element lookups, `innerHTML`, the card
  markup and class strings of `Card.open`/`Card.close`, and the timer display
  (including the `'--'` shown on stop). Only an opened/closed flag per card is kept.
- `updateStyles`, `updateTheme`, `setBaseStyles` and `setConfigFormVisibility`
  are presentation code. `width`, `height` and `theme` are therefore not part of
  the configuration.
- `addAnimation` and the `anime` library are decorative foreign code.
- `alert` calls are I/O; they have no effect on state.
- Scheduling is not modelled: when intervals fire and when waits end is up to
  the caller. Only the event order is captured: ticks only while an interval is
  live, and waits ending oldest first.
- Form values are taken as integers. Strings that are empty or not numbers are
  not modelled.
- `Timers.Timer.constructor`: requires non-negative seconds. With a negative
  value the source would leave the fields `undefined`, and its only caller
  passes the configured 120.
- The `cards` array field of `MatchGrid` is never used by the source and is
  omitted.
- `Math.random` is replaced by the supplied indices `pick`. Uniformity of the
  shuffle is not stated.
