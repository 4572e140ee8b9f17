/** What the events do: the promises of the click handler, the start and
    stop buttons, the timer's expiry action and the visibility handler, stated
    on the transition functions of `Game` for every reachable state. */
module Behaviour {
  import opened Deck
  import opened Grid
  import opened Game
  import opened References
  import Timers


  /** The handler opens the card exactly when the card is closed and a game is
      on; otherwise the click changes nothing. */
  lemma ClickIgnoredExactly(g: GameState, p: Pos)
    requires GameInv(g) && p in g.cards
    ensures Clicked(g, p) == g <==> g.cards[p].isOpened || !g.isPlaying
    ensures !g.cards[p].isOpened && g.isPlaying ==> p in Clicked(g, p).cards && Clicked(g, p).cards[p].isOpened
  {
    if !g.cards[p].isOpened && g.isPlaying {
      assert Clicked(g, p).cards[p].isOpened;
    }
  }

  /** With no first card, the clicked card opens and becomes the first card;
      nothing else changes. */
  lemma FirstClickRemembersCard(g: GameState, p: Pos)
    requires GameInv(g) && p in g.cards && !g.cards[p].isOpened && g.isPlaying
    requires g.firstOpenedCard == None
    ensures Clicked(g, p) == g.(cards := g.cards[p := g.cards[p].(isOpened := true)],
                                firstOpenedCard := Some(CardRef(g.generation, p, g.cards[p].emoji)))
  {
  }

  /** A second card with the first card's face: both stay opened, two fewer
      cards are left, the first card is forgotten, and the game stops (timer
      reset, start enabled) exactly when fewer than two cards are left. */
  lemma MatchKeepsPairOpen(g: GameState, p: Pos)
    requires Consistent(g) && p in g.cards && !g.cards[p].isOpened && g.isPlaying
    requires g.firstOpenedCard.Some? && IsCurrent(g, g.firstOpenedCard.value)
    requires g.cards[p].emoji == g.firstOpenedCard.value.emoji
    ensures var r, q := Clicked(g, p), g.firstOpenedCard.value.pos;
      q != p && r.cards == g.cards[p := g.cards[p].(isOpened := true)] &&
      r.cards[p].isOpened && r.cards[q].isOpened &&
      r.cardsLeft == g.cardsLeft - 2 && r.firstOpenedCard == None && r.pending == g.pending &&
      (r.isPlaying <==> g.cardsLeft - 2 >= 2) &&
      (r.isPlaying ==> r.timer == g.timer) &&
      (!r.isPlaying ==> r.timer == Timers.Stopped(g.timer) && !r.startDisabled && r.stopDisabled)
  {
  }

  /** Winning: the last pair matched stops the game with no cards left and
      the countdown back at its limit. */
  lemma LastPairWins(g: GameState, p: Pos)
    requires Consistent(g) && p in g.cards && !g.cards[p].isOpened && g.isPlaying && g.cardsLeft == 2
    requires g.firstOpenedCard.Some? && IsCurrent(g, g.firstOpenedCard.value)
    requires g.cards[p].emoji == g.firstOpenedCard.value.emoji
    ensures Clicked(g, p).cardsLeft == 0 && !Clicked(g, p).isPlaying
    ensures !Clicked(g, p).timer.running && Clicked(g, p).timer.secondsLeft == Clicked(g, p).timer.secondsLimit
  {
    MatchKeepsPairOpen(g, p);
  }

  /** A second card with another face opens and waits; once the wait is over
      (no other wait pending) both cards are closed again, the first card is
      forgotten, and the grid is as before the two clicks. */
  lemma MismatchThenRevertClosesBoth(g: GameState, p: Pos)
    requires Consistent(g) && p in g.cards && !g.cards[p].isOpened && g.isPlaying && g.pending == []
    requires g.firstOpenedCard.Some? && IsCurrent(g, g.firstOpenedCard.value)
    requires g.cards[p].emoji != g.firstOpenedCard.value.emoji
    ensures var r, q := Clicked(g, p), g.firstOpenedCard.value.pos;
      r.cards[p].isOpened && r.cards[q].isOpened && r.firstOpenedCard == g.firstOpenedCard &&
      r.pending == [CardRef(g.generation, p, g.cards[p].emoji)] && r.cardsLeft == g.cardsLeft
    ensures var r, q := Reverted(Clicked(g, p)), g.firstOpenedCard.value.pos;
      r.cards == g.cards[q := g.cards[q].(isOpened := false)] &&
      r.firstOpenedCard == None && r.pending == [] && r.cardsLeft == g.cardsLeft && r.isPlaying
  {
    var q := g.firstOpenedCard.value.pos;
    var r1 := Clicked(g, p);
    assert r1.cards == g.cards[p := g.cards[p].(isOpened := true)];
    var r2 := Reverted(r1);
    ClosedKeeps(r1.(pending := []), g.firstOpenedCard.value);
    assert r2.cards == g.cards[p := g.cards[p].(isOpened := true)][q := g.cards[q].(isOpened := false)][p := g.cards[p]];
  }

  /** A click only ever opens a card. */
  lemma ClickKeepsOpenCards(g: GameState, p: Pos, q: Pos)
    requires GameInv(g) && p in g.cards && q in g.cards && g.cards[q].isOpened
    ensures q in Clicked(g, p).cards && Clicked(g, p).cards[q].isOpened
  {
    var r := Clicked(g, p);
    assert r.cards == g.cards || r.cards == Opened(g, p).cards;
  }

  /** The end of a wait closes only the first card and the waiting card. */
  lemma RevertKeepsOtherCards(g: GameState, q: Pos)
    requires |g.pending| > 0 && q in g.cards && g.cards[q].isOpened
    requires g.firstOpenedCard.Some? && IsCurrent(g, g.firstOpenedCard.value) ==> g.firstOpenedCard.value.pos != q
    requires q !in Waiting(g.pending, g.generation)
    ensures q in Reverted(g).cards && Reverted(g).cards[q].isOpened
  {
    var g1 := g.(pending := g.pending[1..]);
    assert IsCurrent(g, g.pending[0]) ==> g.pending[0].pos in Waiting(g.pending, g.generation);
    if g.firstOpenedCard.Some? {
      ClosedKeeps(g1, g.firstOpenedCard.value);
      ClosedKeeps(Closed(g1, g.firstOpenedCard.value), g.pending[0]);
    }
  }

  /** No card is closed except the current first card and the cards waiting
      for a revert: outside a restart, an opened card that neither is the
      first card nor waits stays opened. In particular both cards of a match
      stay opened for the rest of the game. */
  lemma OpenCardsStayOpen(g: GameState, e: Event, q: Pos)
    requires GameInv(g) && Enabled(g, e) && !e.StartClick?
    requires q in g.cards && g.cards[q].isOpened
    requires g.firstOpenedCard.Some? && IsCurrent(g, g.firstOpenedCard.value) ==> g.firstOpenedCard.value.pos != q
    requires q !in Waiting(g.pending, g.generation)
    ensures q in Step(g, e).cards && Step(g, e).cards[q].isOpened
  {
    match e
    case StopClick =>
      assert Step(g, e).cards == g.cards;
    case IntervalFired =>
      assert Step(g, e).cards == g.cards;
    case VisibilityChange(hidden) =>
      assert Step(g, e).cards == g.cards;
    case CardClick(p) =>
      ClickKeepsOpenCards(g, p, q);
    case DelayElapsed =>
      RevertKeepsOtherCards(g, q);
  }

  /** The race the 500 ms wait leaves open: after a mismatch, a third card
      with the first card's face matches while the second card still waits;
      when the wait ends `firstOpenedCard` is null, the handler throws, and
      the second card stays opened while no reference to it remains, so
      nothing can close it again. */
  lemma OverlappingRevealLeavesCardOpen(g: GameState, p: Pos, q: Pos)
    requires GameInv(g) && g.isPlaying && g.cardsLeft >= 4 && g.pending == []
    requires g.firstOpenedCard.Some? && IsCurrent(g, g.firstOpenedCard.value)
    requires p in g.cards && !g.cards[p].isOpened && g.cards[p].emoji != g.firstOpenedCard.value.emoji
    requires q in g.cards && q != p && !g.cards[q].isOpened && g.cards[q].emoji == g.firstOpenedCard.value.emoji
    ensures var r := Reverted(Clicked(Clicked(g, p), q));
      r.cards[p].isOpened && r.firstOpenedCard == None && r.pending == [] && r.isPlaying &&
      r.cardsLeft == g.cardsLeft - 2
  {
    var g1 := Clicked(g, p);
    ClickedInv(g, p);
    assert g1.cards[q] == g.cards[q];
    var g2 := Clicked(g1, q);
    assert g2.firstOpenedCard == None;
    assert g2.cards[p].isOpened;
  }

  /** The start handler keeps `firstOpenedCard` and the pending reverts, now
      referring to detached cards. */
  lemma StartKeepsStaleReferences(g: GameState, config: Config, pick: seq<int>)
    requires Consistent(g) && Enabled(g, StartClick(config, pick))
    ensures Started(g, config, pick).firstOpenedCard == g.firstOpenedCard
    ensures Started(g, config, pick).pending == g.pending
    ensures g.firstOpenedCard.Some? ==> !IsCurrent(Started(g, config, pick), g.firstOpenedCard.value)
  {
  }

  /** A first card left over from the previous game is still compared: a new
      card with its face counts as a match, removing two cards from
      `cardsLeft` while only one card of the new grid opens. */
  lemma StaleFirstCardMatches(g: GameState, p: Pos)
    requires GameInv(g) && p in g.cards && !g.cards[p].isOpened && g.isPlaying
    requires g.firstOpenedCard.Some? && !IsCurrent(g, g.firstOpenedCard.value)
    requires g.cards[p].emoji == g.firstOpenedCard.value.emoji
    ensures Clicked(g, p).cardsLeft == g.cardsLeft - 2
    ensures Clicked(g, p).cards == g.cards[p := g.cards[p].(isOpened := true)]
  {
  }

  /** The start handler: a running countdown from the configured seconds (or
      from the old limit when they are negative), a game on, a fresh grid of
      `DeckSize` closed cards laid out from the dealt deck, and `cardsLeft`
      equal to the deck length. With positive dimensions there are exactly
      `cardsLeft` cards, and every cell but the last of an odd-sized grid
      holds one. */
  lemma StartDealsNewGame(g: GameState, config: Config, pick: seq<int>)
    requires GameInv(g) && Enabled(g, StartClick(config, pick))
    ensures var r := Started(g, config, pick);
      r.isPlaying && r.timer.running && r.generation == g.generation + 1 &&
      r.cardsLeft == DeckSize(config.columns, config.rows) &&
      r.cards == Layout(config.columns, config.rows, Deal(config.columns, config.rows, pick)) &&
      (config.secondsLimit >= 0 ==> r.timer.secondsLeft == r.timer.secondsLimit == config.secondsLimit) &&
      (config.secondsLimit < 0 ==> r.timer.secondsLeft == r.timer.secondsLimit == g.timer.secondsLimit)
    ensures config.columns > 0 && config.rows > 0 ==> |Started(g, config, pick).cards| == Started(g, config, pick).cardsLeft
    ensures forall i, j :: config.columns > 0 && config.rows > 0 && 0 <= i < config.columns && 0 <= j < config.rows ==>
              (Pos(i, j) !in Started(g, config, pick).cards <==>
               (config.columns * config.rows) % 2 == 1 && i == config.columns - 1 && j == config.rows - 1)
  {
    var deck := Deal(config.columns, config.rows, pick);
    if config.columns > 0 && config.rows > 0 {
      LayoutSize(config.columns, config.rows, deck);
      forall i, j | 0 <= i < config.columns && 0 <= j < config.rows
        ensures Pos(i, j) !in Layout(config.columns, config.rows, deck) <==>
                (config.columns * config.rows) % 2 == 1 && i == config.columns - 1 && j == config.rows - 1
      {
        OddGridLeavesLastCellEmpty(config.columns, config.rows, deck, i, j);
      }
    }
  }

  /** A tick that brings the countdown to zero ends the game through
      `stopGame`; any other tick only counts down. The grid is untouched. */
  lemma TickEndsGameAtZero(g: GameState)
    requires GameInv(g)
    ensures g.timer.secondsLeft == 1 ==>
              TimerTicked(g) == Stopped(g) && !TimerTicked(g).isPlaying
    ensures g.timer.secondsLeft != 1 ==>
              TimerTicked(g) == g.(timer := g.timer.(secondsLeft := g.timer.secondsLeft - 1))
  {
  }

  /** Hiding the page pauses the countdown; showing it resumes the countdown
      only while a game is on. Nothing but the timer changes. */
  lemma VisibilityPausesAndResumes(g: GameState, hidden: bool)
    ensures VisibilityChanged(g, hidden).(timer := g.timer) == g
    ensures hidden ==> VisibilityChanged(g, hidden).timer == Timers.Paused(g.timer)
    ensures !hidden && g.isPlaying ==> VisibilityChanged(g, hidden).timer == Timers.Continued(g.timer)
    ensures !hidden && !g.isPlaying ==> VisibilityChanged(g, hidden) == g
  {
  }
}
