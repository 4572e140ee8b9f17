/** The game controller `MatchGrid`: its state, every event it reacts to,
    the invariant those events keep, and the class that performs them.

    Card objects are identified by the `createCards` run that made them
    (`generation`) and their position: every run empties the game container,
    so the cards of earlier runs are detached from the page and can no longer
    be clicked, although `firstOpenedCard` and pending mismatch handlers may
    still refer to them. The 500 ms wait of the mismatch branch is an explicit
    queue: a mismatching click appends the clicked card to `pending`, and the
    `DelayElapsed` event runs the rest of that click handler for the oldest
    entry (all waits have the same length, so they end in order). */
module Game {
  import opened Deck
  import opened Grid
  import Timers

  datatype Option<T> = None | Some(value: T)

  /** The values read from the configuration form, taken as integers. */
  datatype Config = Config(columns: int, rows: int, secondsLimit: int)

  /** A reference to a card object: the `createCards` run that made it, its
      position and its face. */
  datatype CardRef = CardRef(generation: nat, pos: Pos, emoji: Emoji)

  datatype GameState = GameState(
    columns: int, rows: int, secondsLimit: int,
    timer: Timers.TimerState,
    isPlaying: bool, cardsLeft: int,
    generation: nat, cards: map<Pos, Card>,
    firstOpenedCard: Option<CardRef>, pending: seq<CardRef>,
    startDisabled: bool, stopDisabled: bool)

  /** The events the page delivers to the controller. */
  datatype Event =
    | StartClick(config: Config, pick: seq<int>)
    | StopClick
    | IntervalFired
    | VisibilityChange(hidden: bool)
    | CardClick(pos: Pos)
    | DelayElapsed

  predicate IsCurrent(g: GameState, r: CardRef)
  {
    r.generation == g.generation
  }

  /** The counting invariant: the timer keeps its own invariant, the number
      of cards left is even and not negative, a game on a non-empty grid has
      at least one pair left, and the buttons mirror `isPlaying`. */
  ghost predicate GameInv(g: GameState)
  {
    Timers.Inv(g.timer) &&
    g.cardsLeft >= 0 && g.cardsLeft % 2 == 0 &&
    (g.isPlaying && g.cards != map[] ==> g.cardsLeft >= 2) &&
    g.startDisabled == g.isPlaying && g.stopDisabled == !g.isPlaying
  }

  /** `createCards()`: a new grid from the deck dealt for the current size;
      every earlier card is detached. */
  function Dealt(g: GameState, pick: seq<int>): (r: GameState)
    requires |pick| == DeckSize(g.columns, g.rows) && ValidPicks(pick)
    ensures r.generation == g.generation + 1
    ensures r.cardsLeft == DeckSize(g.columns, g.rows)
    ensures r.(generation := g.generation, cardsLeft := g.cardsLeft, cards := g.cards) == g
  {
    var deck := Deal(g.columns, g.rows, pick);
    g.(generation := g.generation + 1, cardsLeft := |deck|, cards := Layout(g.columns, g.rows, deck))
  }

  /** `new MatchGrid(gameConfig)`: a stopped timer, no game, and a first grid. */
  function Initial(config: Config, pick: seq<int>): (g: GameState)
    requires config.secondsLimit >= 0
    requires |pick| == DeckSize(config.columns, config.rows) && ValidPicks(pick)
    ensures !g.isPlaying && !g.startDisabled && g.stopDisabled
    ensures g.timer == Timers.TimerState(config.secondsLimit, config.secondsLimit, false, 0)
    ensures g.cardsLeft == DeckSize(config.columns, config.rows)
    ensures g.firstOpenedCard == None && g.pending == []
  {
    var t := Timers.TimerState(config.secondsLimit, config.secondsLimit, false, 0);
    Dealt(GameState(config.columns, config.rows, config.secondsLimit, t, false, 0, 0, map[], None, [], false, true), pick)
  }

  /** `stopGame()`. */
  function Stopped(g: GameState): (r: GameState)
    requires g.timer.secondsLimit >= 0
    ensures !r.isPlaying && !r.startDisabled && r.stopDisabled
    ensures !r.timer.running && r.timer.secondsLimit == g.timer.secondsLimit && r.timer.secondsLeft == g.timer.secondsLimit
    ensures r.(timer := g.timer, isPlaying := g.isPlaying, startDisabled := g.startDisabled, stopDisabled := g.stopDisabled) == g
  {
    g.(timer := Timers.Stopped(g.timer), isPlaying := false, startDisabled := false, stopDisabled := true)
  }

  /** The start button's handler. `firstOpenedCard` and the pending reverts
      are left as they are. */
  function Started(g: GameState, config: Config, pick: seq<int>): (r: GameState)
    requires g.timer.secondsLimit >= 0
    requires |pick| == DeckSize(config.columns, config.rows) && ValidPicks(pick)
    ensures r.isPlaying && r.startDisabled && !r.stopDisabled && r.timer.running
    ensures r.generation == g.generation + 1 && r.cardsLeft == DeckSize(config.columns, config.rows)
    ensures r.firstOpenedCard == g.firstOpenedCard && r.pending == g.pending
  {
    var t := Timers.Stopped(g.timer);
    var g1 := g.(columns := config.columns, rows := config.rows, secondsLimit := config.secondsLimit,
                 timer := Timers.Started(t, config.secondsLimit), isPlaying := true);
    Dealt(g1, pick).(startDisabled := true, stopDisabled := false)
  }

  /** One firing of a live interval: `runTimer`, and `stopGame` as the
      timer's action when the countdown reached zero. */
  function TimerTicked(g: GameState): (r: GameState)
    requires g.timer.secondsLimit >= 0
    ensures g.timer.secondsLeft == 1 ==> !r.isPlaying && !r.timer.running && r.timer.secondsLeft == r.timer.secondsLimit
    ensures g.timer.secondsLeft != 1 ==> r == g.(timer := g.timer.(secondsLeft := g.timer.secondsLeft - 1))
    ensures r.cards == g.cards && r.firstOpenedCard == g.firstOpenedCard && r.pending == g.pending
  {
    var (t, fired) := Timers.Ticked(g.timer);
    if fired then Stopped(g.(timer := t)) else g.(timer := t)
  }

  /** The `visibilitychange` handler. */
  function VisibilityChanged(g: GameState, hidden: bool): (r: GameState)
    ensures hidden ==> !r.timer.running
    ensures !hidden && g.isPlaying ==> r.timer.running
    ensures !hidden && !g.isPlaying ==> r == g
    ensures r.timer.secondsLeft == g.timer.secondsLeft && r.timer.secondsLimit == g.timer.secondsLimit
    ensures r.(timer := g.timer) == g
  {
    if hidden then g.(timer := Timers.Paused(g.timer))
    else if g.isPlaying then g.(timer := Timers.Continued(g.timer))
    else g
  }

  /** `card.open()` on a card of the current grid. */
  function Opened(g: GameState, p: Pos): (r: GameState)
    requires p in g.cards
    ensures r.cards.Keys == g.cards.Keys && r.cards[p].isOpened
    ensures r.cards[p].(isOpened := false) == g.cards[p].(isOpened := false)
    ensures r.(cards := g.cards) == g
  {
    g.(cards := g.cards[p := g.cards[p].(isOpened := true)])
  }

  /** `card.close()`: only a card of the current grid shows the change. */
  function Closed(g: GameState, r: CardRef): (h: GameState)
    ensures h.cards.Keys == g.cards.Keys && h.(cards := g.cards) == g
    ensures IsCurrent(g, r) && r.pos in g.cards ==> !h.cards[r.pos].isOpened
    ensures !IsCurrent(g, r) ==> h == g
  {
    if IsCurrent(g, r) && r.pos in g.cards
    then g.(cards := g.cards[r.pos := g.cards[r.pos].(isOpened := false)])
    else g
  }

  /** The click handler of the card at `p`, up to its wait in the mismatch
      branch. */
  function Clicked(g: GameState, p: Pos): (r: GameState)
    requires p in g.cards && g.timer.secondsLimit >= 0
    ensures r.cards.Keys == g.cards.Keys && r.generation == g.generation
    ensures g.isPlaying ==> r.cards[p].isOpened
    ensures r.cardsLeft == g.cardsLeft || r.cardsLeft == g.cardsLeft - 2
    ensures r.pending == g.pending || r.pending == g.pending + [CardRef(g.generation, p, g.cards[p].emoji)]
  {
    var card := g.cards[p];
    if card.isOpened || !g.isPlaying then g
    else
      var shown := Opened(g, p);
      var ref := CardRef(g.generation, p, card.emoji);
      match g.firstOpenedCard
      case None => shown.(firstOpenedCard := Some(ref))
      case Some(first) =>
        if card.emoji != first.emoji then shown.(pending := g.pending + [ref])
        else
          var matched := shown.(cardsLeft := g.cardsLeft - 2);
          var ended := if matched.cardsLeft < 2 then Stopped(matched) else matched;
          ended.(firstOpenedCard := None)
  }

  /** The rest of the oldest waiting click handler: close the card then held
      in `firstOpenedCard`, close the clicked card, forget the first card.
      When `firstOpenedCard` is already null, `this.firstOpenedCard.close()`
      throws and nothing else of the handler runs. */
  function Reverted(g: GameState): (r: GameState)
    requires |g.pending| > 0
    ensures r.pending == g.pending[1..] && r.firstOpenedCard == None
    ensures r.cards.Keys == g.cards.Keys
    ensures g.firstOpenedCard.None? ==> r.cards == g.cards
    ensures r.(cards := g.cards, pending := g.pending, firstOpenedCard := g.firstOpenedCard) == g
  {
    var card := g.pending[0];
    var g1 := g.(pending := g.pending[1..]);
    match g.firstOpenedCard
    case None => g1
    case Some(first) => Closed(Closed(g1, first), card).(firstOpenedCard := None)
  }

  /** Which events can reach the controller: a disabled button is not
      clicked, only a live interval fires, only cards of the grid are on the
      page, and a wait ends only when one was started. */
  predicate Enabled(g: GameState, e: Event)
  {
    match e
    case StartClick(config, pick) =>
      !g.startDisabled && |pick| == DeckSize(config.columns, config.rows) && ValidPicks(pick)
    case StopClick => !g.stopDisabled
    case IntervalFired => Timers.Live(g.timer)
    case VisibilityChange(_) => true
    case CardClick(p) => p in g.cards
    case DelayElapsed => |g.pending| > 0
  }

  // ---------------------------------------------------------------------------
  // The invariant is established and kept

  lemma DealtLayout(g: GameState, pick: seq<int>)
    requires |pick| == DeckSize(g.columns, g.rows) && ValidPicks(pick)
    ensures Dealt(g, pick).cardsLeft == DeckSize(g.columns, g.rows)
    ensures Dealt(g, pick).cards != map[] ==> Dealt(g, pick).cardsLeft >= 2
    ensures forall p :: p in Dealt(g, pick).cards ==>
              Dealt(g, pick).cards[p].column == p.column && Dealt(g, pick).cards[p].row == p.row &&
              !Dealt(g, pick).cards[p].isOpened
  {
    var deck := Deal(g.columns, g.rows, pick);
    LayoutCells(g.columns, g.rows, deck);
  }

  lemma InitialInv(config: Config, pick: seq<int>)
    requires config.secondsLimit >= 0
    requires |pick| == DeckSize(config.columns, config.rows) && ValidPicks(pick)
    ensures GameInv(Initial(config, pick))
    ensures !Initial(config, pick).isPlaying && Initial(config, pick).firstOpenedCard == None
    ensures Initial(config, pick).cardsLeft == DeckSize(config.columns, config.rows)
  {
    var t := Timers.TimerState(config.secondsLimit, config.secondsLimit, false, 0);
    DealtLayout(GameState(config.columns, config.rows, config.secondsLimit, t, false, 0, 0, map[], None, [], false, true), pick);
  }

  lemma StoppedInv(g: GameState)
    requires GameInv(g)
    ensures GameInv(Stopped(g))
  {
    Timers.InvPreserved(g.timer, 0);
  }

  lemma StartedInv(g: GameState, config: Config, pick: seq<int>)
    requires GameInv(g)
    requires |pick| == DeckSize(config.columns, config.rows) && ValidPicks(pick)
    ensures GameInv(Started(g, config, pick))
  {
    var t := Timers.Stopped(g.timer);
    Timers.InvPreserved(g.timer, 0);
    Timers.InvPreserved(t, config.secondsLimit);
    var g1 := g.(columns := config.columns, rows := config.rows, secondsLimit := config.secondsLimit,
                 timer := Timers.Started(t, config.secondsLimit), isPlaying := true);
    DealtLayout(g1, pick);
  }

  lemma TimerTickedInv(g: GameState)
    requires GameInv(g)
    ensures GameInv(TimerTicked(g))
  {
    Timers.InvPreserved(g.timer, 0);
    var t := Timers.Ticked(g.timer).0;
    Timers.InvPreserved(t, 0);
  }

  lemma VisibilityChangedInv(g: GameState, hidden: bool)
    requires GameInv(g)
    ensures GameInv(VisibilityChanged(g, hidden))
  {
    Timers.InvPreserved(g.timer, 0);
  }

  lemma ClickedInv(g: GameState, p: Pos)
    requires GameInv(g) && p in g.cards
    ensures GameInv(Clicked(g, p))
  {
    Timers.InvPreserved(g.timer, 0);
  }

  lemma ClosedKeeps(g: GameState, r: CardRef)
    ensures Closed(g, r).cards.Keys == g.cards.Keys
    ensures forall q :: q in g.cards ==>
              Closed(g, r).cards[q] == if IsCurrent(g, r) && q == r.pos then g.cards[q].(isOpened := false) else g.cards[q]
    ensures Closed(g, r).pending == g.pending && Closed(g, r).firstOpenedCard == g.firstOpenedCard
    ensures Closed(g, r).(cards := g.cards) == g
  {
  }

  lemma RevertedInv(g: GameState)
    requires GameInv(g) && |g.pending| > 0
    ensures GameInv(Reverted(g))
  {
    var g1 := g.(pending := g.pending[1..]);
    if g.firstOpenedCard.Some? {
      ClosedKeeps(g1, g.firstOpenedCard.value);
      ClosedKeeps(Closed(g1, g.firstOpenedCard.value), g.pending[0]);
    }
  }

  /** The controller's transition for one event. */
  function Step(g: GameState, e: Event): GameState
    requires GameInv(g) && Enabled(g, e)
  {
    match e
    case StartClick(config, pick) => Started(g, config, pick)
    case StopClick => Stopped(g)
    case IntervalFired => TimerTicked(g)
    case VisibilityChange(hidden) => VisibilityChanged(g, hidden)
    case CardClick(p) => Clicked(g, p)
    case DelayElapsed => Reverted(g)
  }

  // ---------------------------------------------------------------------------
  // The controller object

  class MatchGrid {
    var columns: int
    var rows: int
    var secondsLimit: int
    const timer: Timers.Timer
    var isPlaying: bool
    var cardsLeft: int
    var generation: nat
    var cards: map<Pos, Card>
    var firstOpenedCard: Option<CardRef>
    var pending: seq<CardRef>
    var startDisabled: bool
    var stopDisabled: bool

    function State(): GameState
      reads this, timer
    {
      GameState(columns, rows, secondsLimit, timer.State(), isPlaying, cardsLeft,
                generation, cards, firstOpenedCard, pending, startDisabled, stopDisabled)
    }

    ghost predicate Valid()
      reads this, timer
    {
      GameInv(State())
    }

    /** `new MatchGrid(args)`. */
    constructor (config: Config, pick: seq<int>)
      requires config.secondsLimit >= 0
      requires |pick| == DeckSize(config.columns, config.rows) && ValidPicks(pick)
      ensures Valid() && fresh(timer)
      ensures State() == Initial(config, pick)
    {
      columns, rows, secondsLimit := config.columns, config.rows, config.secondsLimit;
      cards, firstOpenedCard, isPlaying, cardsLeft := map[], None, false, 0;
      timer := new Timers.Timer(config.secondsLimit);
      generation, pending, startDisabled, stopDisabled := 0, [], false, false;
      new;
      stopDisabled := true;
      CreateCards(pick);
      InitialInv(config, pick);
    }

    /** `createCards()`: empties the container, deals a deck and places the cards. */
    method CreateCards(pick: seq<int>)
      requires |pick| == DeckSize(columns, rows) && ValidPicks(pick)
      modifies this
      ensures State() == Dealt(old(State()), pick)
    {
      generation := generation + 1;
      var emojis := GenerateEmojiArray(columns, rows, pick);
      cardsLeft := emojis.Length;
      cards := PlaceCards(columns, rows, emojis[..]);
    }

    /** `stopGame()`, also the timer's expiry action. */
    method StopGame()
      requires timer.Valid()
      modifies this, timer
      ensures State() == Stopped(old(State()))
    {
      timer.StopTimer();
      isPlaying := false;
      startDisabled := false;
      stopDisabled := true;
    }

    /** The start button's click listener. */
    method OnStartClick(config: Config, pick: seq<int>)
      requires Valid() && Enabled(State(), StartClick(config, pick))
      modifies this, timer
      ensures State() == Started(old(State()), config, pick)
      ensures Valid()
    {
      timer.StopTimer();
      columns, rows, secondsLimit := config.columns, config.rows, config.secondsLimit;
      timer.StartTimer(secondsLimit);
      isPlaying := true;
      ghost var g1 := State();
      assert g1 == old(State()).(columns := config.columns, rows := config.rows, secondsLimit := config.secondsLimit,
                                 timer := Timers.Started(Timers.Stopped(old(timer.State())), config.secondsLimit),
                                 isPlaying := true);
      CreateCards(pick);
      assert State() == Dealt(g1, pick);
      startDisabled := true;
      stopDisabled := false;
      StartedInv(old(State()), config, pick);
    }

    /** The stop button's click listener. */
    method OnStopClick()
      requires Valid() && Enabled(State(), StopClick)
      modifies this, timer
      ensures Valid() && State() == Stopped(old(State()))
    {
      StoppedInv(State());
      StopGame();
    }

    /** A live interval fires: `runTimer`, then the action when it says so. */
    method OnInterval()
      requires Valid() && Enabled(State(), IntervalFired)
      modifies this, timer
      ensures Valid() && State() == TimerTicked(old(State()))
    {
      TimerTickedInv(State());
      var fired := timer.RunTimer();
      if fired {
        StopGame();
      }
    }

    /** The `visibilitychange` listener. */
    method OnVisibilityChange(hidden: bool)
      requires Valid()
      modifies timer
      ensures Valid() && State() == VisibilityChanged(old(State()), hidden)
    {
      VisibilityChangedInv(State(), hidden);
      if hidden {
        timer.PauseTimer();
        return;
      }
      if isPlaying {
        timer.ContinueTimer();
      }
    }

    /** The click listener of the card at `p`, up to the wait of a mismatch. */
    method OnCardClick(p: Pos)
      requires Valid() && Enabled(State(), CardClick(p))
      modifies this, timer
      ensures State() == Clicked(old(State()), p)
      ensures Valid()
    {
      ghost var g := State();
      var card := cards[p];
      if !card.isOpened && isPlaying {
        cards := cards[p := card.(isOpened := true)];
        var ref := CardRef(generation, p, card.emoji);
        if firstOpenedCard.None? {
          firstOpenedCard := Some(ref);
          assert State() == Opened(g, p).(firstOpenedCard := Some(ref));
        } else if card.emoji != firstOpenedCard.value.emoji {
          pending := pending + [ref];
          assert State() == Opened(g, p).(pending := g.pending + [ref]);
        } else {
          cardsLeft := cardsLeft - 2;
          ghost var matched := State();
          assert matched == Opened(g, p).(cardsLeft := g.cardsLeft - 2);
          if cardsLeft < 2 {
            StopGame();
          }
          firstOpenedCard := None;
          assert State() == (if matched.cardsLeft < 2 then Stopped(matched) else matched).(firstOpenedCard := None);
        }
      }
      ClickedInv(g, p);
    }

    /** `card.close()` for a card of any grid. */
    method Close(r: CardRef)
      modifies this
      ensures State() == Closed(old(State()), r)
    {
      if r.generation == generation && r.pos in cards {
        cards := cards[r.pos := cards[r.pos].(isOpened := false)];
      }
    }

    /** The oldest mismatch wait ends and its click listener resumes. */
    method OnDelayElapsed()
      requires Valid() && Enabled(State(), DelayElapsed)
      modifies this
      ensures State() == Reverted(old(State()))
      ensures Valid()
    {
      var card := pending[0];
      pending := pending[1..];
      if firstOpenedCard.Some? {
        Close(firstOpenedCard.value);
        Close(card);
        firstOpenedCard := None;
      }
      RevertedInv(old(State()));
    }
  }
}
