/** The references the controller keeps to card objects, `firstOpenedCard`
    and the cards the waiting mismatch handlers will close, and the
    invariant that ties them to the grid. Together with the counting
    invariant of `Game` it holds in every reachable state. */
module References {
  import opened Deck
  import opened Grid
  import opened Game

  /** The positions of the cards of grid `gen` that the waiting handlers
      will close, with multiplicity. */
  function Waiting(refs: seq<CardRef>, gen: nat): multiset<Pos>
  {
    if refs == [] then multiset{}
    else (if refs[0].generation == gen then multiset{refs[0].pos} else multiset{}) + Waiting(refs[1..], gen)
  }

  /** A handler that starts waiting adds its card, when it is of grid `gen`. */
  lemma {:induction false} WaitingAppend(refs: seq<CardRef>, r: CardRef, gen: nat)
    ensures Waiting(refs + [r], gen) ==
            Waiting(refs, gen) + if r.generation == gen then multiset{r.pos} else multiset{}
    decreases |refs|
  {
    if refs != [] {
      assert (refs + [r])[1..] == refs[1..] + [r];
      WaitingAppend(refs[1..], r, gen);
    }
  }

  /** Handlers that all refer to older grids close nothing of grid `gen`. */
  lemma {:induction false} WaitingOlder(refs: seq<CardRef>, gen: nat)
    requires forall k :: 0 <= k < |refs| ==> refs[k].generation < gen
    ensures Waiting(refs, gen) == multiset{}
    decreases |refs|
  {
    if refs != [] {
      WaitingOlder(refs[1..], gen);
    }
  }

  /** Every card sits at its own position. */
  ghost predicate AtOwnPositions(g: GameState)
  {
    forall p :: p in g.cards ==> g.cards[p].column == p.column && g.cards[p].row == p.row
  }

  /** No reference is to a grid newer than the current one. */
  ghost predicate NoNewerRefs(g: GameState)
  {
    (forall k :: 0 <= k < |g.pending| ==> g.pending[k].generation <= g.generation) &&
    (g.firstOpenedCard.Some? ==> g.firstOpenedCard.value.generation <= g.generation)
  }

  /** Cards of the grid that wait for a revert are opened cards of the grid. */
  ghost predicate WaitingOpened(g: GameState)
  {
    forall q :: q in Waiting(g.pending, g.generation) ==> q in g.cards && g.cards[q].isOpened
  }

  /** No card of the grid waits for a revert twice. */
  ghost predicate WaitingOnce(g: GameState)
  {
    forall q :: Waiting(g.pending, g.generation)[q] <= 1
  }

  /** A first card of the current grid is opened, shows the remembered face,
      and does not wait for a revert. */
  ghost predicate FirstShown(g: GameState)
  {
    match g.firstOpenedCard
    case None => true
    case Some(first) =>
      IsCurrent(g, first) ==>
        first.pos in g.cards && g.cards[first.pos].isOpened && g.cards[first.pos].emoji == first.emoji &&
        first.pos !in Waiting(g.pending, g.generation)
  }

  ghost predicate GridInv(g: GameState)
  {
    AtOwnPositions(g) && NoNewerRefs(g) && WaitingOpened(g) && WaitingOnce(g) && FirstShown(g)
  }

  /** The invariant of every reachable controller state. */
  ghost predicate Consistent(g: GameState)
  {
    GameInv(g) && GridInv(g)
  }

  // ---------------------------------------------------------------------------
  // Each event keeps the grid invariant

  lemma InitialConsistent(config: Config, pick: seq<int>)
    requires config.secondsLimit >= 0
    requires |pick| == DeckSize(config.columns, config.rows) && ValidPicks(pick)
    ensures Consistent(Initial(config, pick))
  {
    InitialInv(config, pick);
    var t := Timers.TimerState(config.secondsLimit, config.secondsLimit, false, 0);
    DealtLayout(GameState(config.columns, config.rows, config.secondsLimit, t, false, 0, 0, map[], None, [], false, true), pick);
  }

  /** The grid invariant depends on the grid and the references only. */
  lemma GridFrame(g: GameState, r: GameState)
    requires GridInv(g)
    requires r.cards == g.cards && r.generation == g.generation
    requires r.firstOpenedCard == g.firstOpenedCard && r.pending == g.pending
    ensures GridInv(r)
  {
  }

  lemma StartedGridInv(g: GameState, config: Config, pick: seq<int>)
    requires Consistent(g)
    requires |pick| == DeckSize(config.columns, config.rows) && ValidPicks(pick)
    ensures GridInv(Started(g, config, pick))
  {
    var t := Timers.Stopped(g.timer);
    var g1 := g.(columns := config.columns, rows := config.rows, secondsLimit := config.secondsLimit,
                 timer := Timers.Started(t, config.secondsLimit), isPlaying := true);
    var r := Started(g, config, pick);
    DealtLayout(g1, pick);
    assert r.generation == g.generation + 1 && r.pending == g.pending && r.firstOpenedCard == g.firstOpenedCard;
    WaitingOlder(g.pending, r.generation);
  }

  /** Opening a closed card of the grid keeps the invariant; that card was
      neither waiting nor the first card. */
  lemma OpenedGridInv(g: GameState, p: Pos)
    requires GridInv(g) && p in g.cards && !g.cards[p].isOpened
    ensures GridInv(Opened(g, p))
    ensures p !in Waiting(g.pending, g.generation)
    ensures g.firstOpenedCard.Some? && IsCurrent(g, g.firstOpenedCard.value) ==> g.firstOpenedCard.value.pos != p
  {
  }

  lemma ClickFirstInv(g: GameState, p: Pos)
    requires Consistent(g) && p in g.cards && !g.cards[p].isOpened && g.isPlaying && g.firstOpenedCard.None?
    ensures GridInv(Clicked(g, p))
  {
    OpenedGridInv(g, p);
    var shown := Opened(g, p);
    assert Clicked(g, p) == shown.(firstOpenedCard := Some(CardRef(g.generation, p, g.cards[p].emoji)));
  }

  lemma ClickMismatchInv(g: GameState, p: Pos)
    requires Consistent(g) && p in g.cards && !g.cards[p].isOpened && g.isPlaying
    requires g.firstOpenedCard.Some? && g.cards[p].emoji != g.firstOpenedCard.value.emoji
    ensures GridInv(Clicked(g, p))
  {
    OpenedGridInv(g, p);
    var shown := Opened(g, p);
    var ref := CardRef(g.generation, p, g.cards[p].emoji);
    var r := shown.(pending := g.pending + [ref]);
    assert Clicked(g, p) == r;
    WaitingAppend(g.pending, ref, g.generation);
    assert Waiting(r.pending, r.generation) == Waiting(g.pending, g.generation) + multiset{p};
    assert NoNewerRefs(r) by {
      assert forall k :: 0 <= k < |g.pending| ==> r.pending[k] == g.pending[k];
    }
  }

  lemma ClickMatchInv(g: GameState, p: Pos)
    requires Consistent(g) && p in g.cards && !g.cards[p].isOpened && g.isPlaying
    requires g.firstOpenedCard.Some? && g.cards[p].emoji == g.firstOpenedCard.value.emoji
    ensures GridInv(Clicked(g, p))
  {
    OpenedGridInv(g, p);
    var shown := Opened(g, p);
    var r := Clicked(g, p);
    assert r.cards == shown.cards && r.pending == g.pending && r.generation == g.generation;
    assert r.firstOpenedCard == None;
  }

  lemma ClickedGridInv(g: GameState, p: Pos)
    requires Consistent(g) && p in g.cards
    ensures GridInv(Clicked(g, p))
  {
    if g.cards[p].isOpened || !g.isPlaying {
      assert Clicked(g, p) == g;
    } else if g.firstOpenedCard.None? {
      ClickFirstInv(g, p);
    } else if g.cards[p].emoji != g.firstOpenedCard.value.emoji {
      ClickMismatchInv(g, p);
    } else {
      ClickMatchInv(g, p);
    }
  }

  /** Taking the oldest handler off the queue and forgetting the first card
      keeps the invariant; the card of that handler, if of the grid, is not
      among the cards still waiting. */
  lemma DequeueGridInv(g: GameState)
    requires GridInv(g) && |g.pending| > 0
    ensures GridInv(g.(pending := g.pending[1..], firstOpenedCard := None))
    ensures IsCurrent(g, g.pending[0]) ==> g.pending[0].pos !in Waiting(g.pending[1..], g.generation)
    ensures Waiting(g.pending[1..], g.generation) <= Waiting(g.pending, g.generation)
  {
    var h := g.(pending := g.pending[1..], firstOpenedCard := None);
    assert Waiting(g.pending, g.generation) ==
           (if IsCurrent(g, g.pending[0]) then multiset{g.pending[0].pos} else multiset{}) + Waiting(h.pending, g.generation);
    assert NoNewerRefs(h) by {
      assert forall k :: 0 <= k < |h.pending| ==> h.pending[k] == g.pending[k + 1];
    }
    assert Waiting(g.pending, g.generation)[g.pending[0].pos] <= 1;
    assert WaitingOnce(h) by {
      forall q
        ensures Waiting(h.pending, g.generation)[q] <= Waiting(g.pending, g.generation)[q]
      {
      }
    }
  }

  /** Closing a card that is not waiting keeps the invariant, when no first
      card is remembered. */
  lemma CloseGridInv(g: GameState, c: CardRef)
    requires GridInv(g) && g.firstOpenedCard.None?
    requires IsCurrent(g, c) ==> c.pos !in Waiting(g.pending, g.generation)
    ensures GridInv(Closed(g, c))
  {
    ClosedKeeps(g, c);
  }

  /** `close()` does not look at `firstOpenedCard`. */
  lemma ClosedIgnoresFirst(g: GameState, c: CardRef, f: Option<CardRef>)
    ensures Closed(g.(firstOpenedCard := f), c) == Closed(g, c).(firstOpenedCard := f)
  {
  }

  /** Ending a wait closes the first card and the waiting card; every other
      waiting card of the grid is a different card, and stays opened. */
  lemma RevertedGridInv(g: GameState)
    requires Consistent(g) && |g.pending| > 0
    ensures GridInv(Reverted(g))
  {
    var card := g.pending[0];
    var h := g.(pending := g.pending[1..], firstOpenedCard := None);
    DequeueGridInv(g);
    if g.firstOpenedCard.Some? {
      var first := g.firstOpenedCard.value;
      var g1 := g.(pending := g.pending[1..]);
      assert h == g1.(firstOpenedCard := None);
      ClosedIgnoresFirst(g1, first, None);
      ClosedIgnoresFirst(Closed(g1, first), card, None);
      assert Reverted(g) == Closed(Closed(h, first), card);
      ClosedKeeps(h, first);
      CloseGridInv(h, first);
      CloseGridInv(Closed(h, first), card);
    } else {
      assert Reverted(g) == h;
    }
  }

  /** Every event that can reach the controller keeps its invariant. */
  lemma StepKeepsInvariant(g: GameState, e: Event)
    requires Consistent(g) && Enabled(g, e)
    ensures Consistent(Step(g, e))
  {
    match e
    case StartClick(config, pick) =>
      StartedInv(g, config, pick);
      StartedGridInv(g, config, pick);
    case StopClick =>
      StoppedInv(g);
      GridFrame(g, Stopped(g));
    case IntervalFired =>
      TimerTickedInv(g);
      GridFrame(g, TimerTicked(g));
    case VisibilityChange(hidden) =>
      VisibilityChangedInv(g, hidden);
      GridFrame(g, VisibilityChanged(g, hidden));
    case CardClick(p) =>
      ClickedInv(g, p);
      ClickedGridInv(g, p);
    case DelayElapsed =>
      RevertedInv(g);
      RevertedGridInv(g);
  }
}
