/** The blackjack face: the deck, the scoring of hands, and the flow of rounds. */
module Blackjack {
  import opened Words

  const ACE := 14
  const KING := 13
  const QUEEN := 12
  const JACK := 11
  const MIN_CARD := 2
  const RANKS := 13
  const SUITS := 4
  const DECK_SIZE := 52
  const MAX_HAND := 11

  datatype GameState = TitleScreen | Playing | DealerPlaying | Bust | Result | WinRatio

  /** What the face last announced. */
  datatype Verdict = Nothing | Win | Lose | Tie | Busted

  /** A hand: its announced score, how many aces still count eleven, and its cards. */
  datatype Hand = Hand(score: nat, highAces: nat, cards: seq<nat>)

  const EMPTY := Hand(0, 0, [])

  /** The random generator, as an arbitrary stream of draws. */
  type Draws = nat -> nat

  datatype Game = Game(state: GameState, deck: seq<nat>, current: nat, drawn: nat, player: Hand, dealer: Hand,
                       verdict: Verdict)

  // The deck.

  function Suits(card: nat): (d: seq<nat>)
    ensures |d| == SUITS
  {
    [card, card, card, card]
  }

  lemma SuitsCount(card: nat, v: nat)
    ensures multiset(Suits(card))[v] == if v == card then SUITS else 0
  {
    assert multiset(Suits(card)) == multiset{card, card, card, card};
  }

  /** The cards of the first `i` ranks, four of each. */
  function Stacked(i: nat): (d: seq<nat>)
    ensures |d| == SUITS * i
  {
    if i == 0 then [] else Stacked(i - 1) + Suits(i + 1)
  }

  /** Four cards of every rank from two to ace. */
  ghost predicate IsDeck(deck: seq<nat>) {
    |deck| == 52 && forall v: nat :: multiset(deck)[v] == if 2 <= v <= 14 then 4 else 0
  }

  function Swapped(deck: seq<nat>, i: nat, j: nat): (d: seq<nat>)
    requires i < |deck| && j < |deck|
    ensures |d| == |deck|
  {
    deck[i := deck[j]][j := deck[i]]
  }

  /** Fisher-Yates from position `i` down. */
  function Shuffled(deck: seq<nat>, i: nat, rng: Draws, at: nat): (d: seq<nat>)
    requires i < |deck|
    ensures |d| == |deck|
    decreases i
  {
    if i == 0 then deck else Shuffled(Swapped(deck, rng(at) % (i + 1), i), i - 1, rng, at + 1)
  }

  lemma {:induction false} StackedCounts(i: nat, v: nat)
    ensures multiset(Stacked(i))[v] == if MIN_CARD <= v < MIN_CARD + i then SUITS else 0
  {
    hide Suits;
    if i > 0 {
      StackedCounts(i - 1, v);
      SuitsCount(i + 1, v);
      assert multiset(Stacked(i)) == multiset(Stacked(i - 1)) + multiset(Suits(i + 1));
    }
  }

  lemma StackedIsDeck()
    ensures IsDeck(Stacked(RANKS))
  {
    hide Stacked;
    forall v: nat
      ensures multiset(Stacked(RANKS))[v] == if MIN_CARD <= v <= ACE then SUITS else 0
    {
      StackedCounts(RANKS, v);
    }
  }

  lemma SwapKeeps(deck: seq<nat>, i: nat, j: nat)
    requires i < |deck| && j < |deck|
    ensures multiset(Swapped(deck, i, j)) == multiset(deck)
  {
  }

  lemma {:induction false} ShuffleKeeps(deck: seq<nat>, i: nat, rng: Draws, at: nat)
    requires i < |deck|
    ensures multiset(Shuffled(deck, i, rng, at)) == multiset(deck)
    decreases i
  {
    hide Swapped;
    if i > 0 {
      var next := Swapped(deck, rng(at) % (i + 1), i);
      SwapKeeps(deck, rng(at) % (i + 1), i);
      ShuffleKeeps(next, i - 1, rng, at + 1);
    }
  }

  function ResetDeck(g: Game, rng: Draws): Game
    requires |g.deck| == DECK_SIZE
  {
    g.(current := 0, deck := Shuffled(g.deck, DECK_SIZE - 1, rng, g.drawn), drawn := g.drawn + (DECK_SIZE - 1))
  }

  function NextCard(g: Game, rng: Draws): (r: (Game, nat))
    requires |g.deck| == DECK_SIZE
  {
    var g1 := if g.current >= DECK_SIZE then ResetDeck(g, rng) else g;
    (g1.(current := g1.current + 1), g1.deck[g1.current])
  }

  // Scoring.

  function CardValue(card: nat): nat {
    if card == ACE then 11 else if card == KING || card == QUEEN || card == JACK then 10 else card
  }

  function ReduceAces(h: Hand): Hand
    decreases h.highAces
  {
    if h.score > 21 && h.highAces > 0 then ReduceAces(h.(score := h.score - 10, highAces := h.highAces - 1)) else h
  }

  function Give(h: Hand, card: nat): Hand {
    ReduceAces(Hand(h.score + CardValue(card), h.highAces + (if card == ACE then 1 else 0), h.cards + [card]))
  }

  // Rounds.

  function GivePlayer(g: Game, rng: Draws): Game
    requires |g.deck| == DECK_SIZE
  {
    var (g1, card) := NextCard(g, rng);
    g1.(player := Give(g.player, card))
  }

  function GiveDealer(g: Game, rng: Draws): Game
    requires |g.deck| == DECK_SIZE
  {
    var (g1, card) := NextCard(g, rng);
    g1.(dealer := Give(g.dealer, card))
  }

  function Announce(g: Game, verdict: Verdict): Game {
    g.(state := Result, verdict := verdict)
  }

  function Begin(g: Game, rng: Draws): Game
    requires |g.deck| == DECK_SIZE
  {
    var reset := ResetDeck(g.(state := Playing, player := EMPTY, dealer := EMPTY), rng);
    GiveDealer(GivePlayer(GivePlayer(reset, rng), rng), rng)
  }

  function PlayerHits(g: Game, rng: Draws): Game
    requires |g.deck| == DECK_SIZE
  {
    if g.player.score == 21 then g.(state := DealerPlaying)
    else
      var g1 := GivePlayer(g, rng);
      if g1.player.score > 21 then g1.(state := Bust) else g1
  }

  function DealerHits(g: Game, rng: Draws): Game
    requires |g.deck| == DECK_SIZE
  {
    var g1 := GiveDealer(g, rng);
    if g1.dealer.score > 21 then Announce(g1, Win)
    else if g1.dealer.score > g1.player.score then Announce(g1, Lose)
    else g1
  }

  function DealerTurn(g: Game, rng: Draws): Game
    requires |g.deck| == DECK_SIZE
  {
    if g.dealer.score > 16 then
      Announce(g, if g.dealer.score > g.player.score then Lose else if g.dealer.score < g.player.score then Win else Tie)
    else DealerHits(g, rng)
  }

  datatype Event = Activate | Press(hit: bool) | Tick | LongLight

  function Pressed(g: Game, hit: bool, rng: Draws): Game
    requires |g.deck| == DECK_SIZE
  {
    match g.state
    case TitleScreen => Begin(g, rng)
    case Playing => if hit then PlayerHits(g, rng) else g.(state := DealerPlaying)
    case DealerPlaying => DealerTurn(g, rng)
    case Bust => Announce(g, Busted)
    case _ => g.(state := TitleScreen)
  }

  function Step(g: Game, e: Event, rng: Draws): Game
    requires |g.deck| == DECK_SIZE
  {
    match e
    case Activate => g.(state := TitleScreen, deck := Stacked(RANKS))
    case Press(hit) => Pressed(g, hit, rng)
    case Tick =>
      if g.state == DealerPlaying then DealerTurn(g, rng)
      else if g.state == Bust then Announce(g, Busted)
      else g
    case LongLight => if g.state == TitleScreen then g.(state := WinRatio) else g
  }

  // What a hand is worth.

  /** An ace counts one, the faces ten, and every other card its number. */
  function HardValue(card: nat): nat {
    if card == 14 then 1 else if card > 10 then 10 else card
  }

  function HardTotal(cards: seq<nat>): nat {
    if cards == [] then 0 else HardTotal(cards[..|cards| - 1]) + HardValue(cards[|cards| - 1])
  }

  function Aces(cards: seq<nat>): nat {
    multiset(cards)[ACE]
  }

  predicate IsCard(card: nat) {
    MIN_CARD <= card <= ACE
  }

  /**
   The announced score is the best total: as many aces count eleven as fit under 21, and none when the
   hand is over 21 anyway.
   */
  predicate BestScore(h: Hand) {
    && h.score == HardTotal(h.cards) + 10 * h.highAces
    && h.highAces <= Aces(h.cards)
    && (h.score > 21 ==> h.highAces == 0)
    && forall k: nat :: k <= Aces(h.cards) && HardTotal(h.cards) + 10 * k <= 21 ==> k <= h.highAces
  }

  lemma {:induction false} ReduceAcesBest(h: Hand)
    requires h.score == HardTotal(h.cards) + 10 * h.highAces && h.highAces <= Aces(h.cards)
    requires forall k: nat :: k <= Aces(h.cards) && HardTotal(h.cards) + 10 * k <= 21 ==> k <= h.highAces
    ensures BestScore(ReduceAces(h)) && ReduceAces(h).cards == h.cards
    decreases h.highAces
  {
    hide HardTotal;
    if h.score > 21 && h.highAces > 0 {
      ReduceAcesBest(h.(score := h.score - 10, highAces := h.highAces - 1));
    }
  }

  lemma AddCard(cards: seq<nat>, card: nat)
    ensures HardTotal(cards + [card]) == HardTotal(cards) + HardValue(card)
    ensures Aces(cards + [card]) == Aces(cards) + if card == ACE then 1 else 0
  {
    assert (cards + [card])[..|cards|] == cards;
  }

  /** Giving a card keeps the score the best total and makes the hard total grow. */
  lemma GiveBest(h: Hand, card: nat)
    requires BestScore(h) && IsCard(card)
    ensures BestScore(Give(h, card)) && Give(h, card).cards == h.cards + [card]
    ensures HardTotal(Give(h, card).cards) > HardTotal(h.cards)
  {
    hide HardTotal, ReduceAces;
    AddCard(h.cards, card);
    var dealt := Hand(h.score + CardValue(card), h.highAces + (if card == ACE then 1 else 0), h.cards + [card]);
    forall k: nat | k <= Aces(dealt.cards) && HardTotal(dealt.cards) + 10 * k <= 21
      ensures k <= dealt.highAces
    {
      if card == ACE && k > 0 {
        assert HardTotal(h.cards) + 10 * (k - 1) <= 21;
      } else if k <= Aces(h.cards) {
        assert HardTotal(h.cards) + 10 * k <= 21;
      }
    }
    ReduceAcesBest(dealt);
  }

  /** With four aces and four twos in the deck, eleven cards are worth at least 21. */
  lemma {:induction false} LowestHand(cards: seq<nat>)
    requires forall k :: 0 <= k < |cards| ==> IsCard(cards[k])
    ensures HardTotal(cards) >= 3 * |cards| - 2 * Aces(cards) - multiset(cards)[2]
  {
    if cards != [] {
      var n := |cards| - 1;
      assert cards == cards[..n] + [cards[n]];
      LowestHand(cards[..n]);
    }
  }

  // The invariant of every run.

  /** The dealt cards are the front of the deck, and each hand carries its best score. */
  ghost predicate Dealt(g: Game) {
    && g.current == |g.player.cards| + |g.dealer.cards| <= |g.deck|
    && multiset(g.deck[..g.current]) == multiset(g.player.cards) + multiset(g.dealer.cards)
    && BestScore(g.player) && BestScore(g.dealer)
    && |g.player.cards| <= MAX_HAND && |g.dealer.cards| <= MAX_HAND
  }

  /** The verdict that the two final scores call for. */
  function Fair(player: nat, dealer: nat): Verdict {
    if player > 21 then Busted
    else if dealer > 21 || dealer < player then Win
    else if dealer > player then Lose
    else Tie
  }

  ghost predicate Inv(g: Game) {
    && IsDeck(g.deck)
    && match g.state {
      case Playing => Dealt(g) && g.player.score <= 21 && |g.dealer.cards| == 1 && g.dealer.score <= 16
      case DealerPlaying => Dealt(g) && g.player.score <= 21 && g.dealer.score <= 21
      case Bust => Dealt(g) && g.player.score > 21
      case Result => Dealt(g) && g.verdict == Fair(g.player.score, g.dealer.score)
      case _ => true
    }
  }

  lemma DeckCards(deck: seq<nat>, k: nat)
    requires IsDeck(deck) && k < |deck|
    ensures IsCard(deck[k])
  {
    assert deck[k] in multiset(deck);
  }

  /** A hand taken from the deck holds at most four of each card, all of them cards. */
  lemma FromDeck(deck: seq<nat>, n: nat, cards: seq<nat>, rest: multiset<nat>)
    requires IsDeck(deck) && n <= |deck|
    requires multiset(deck[..n]) == multiset(cards) + rest
    ensures forall k :: 0 <= k < |cards| ==> IsCard(cards[k])
    ensures Aces(cards) <= SUITS && multiset(cards)[2] <= SUITS
  {
    assert deck == deck[..n] + deck[n..];
    assert multiset(deck) == multiset(cards) + rest + multiset(deck[n..]);
    assert multiset(deck)[ACE] == SUITS && multiset(deck)[2] == SUITS;
    forall k | 0 <= k < |cards|
      ensures IsCard(cards[k])
    {
      assert cards[k] in multiset(cards);
      assert multiset(deck)[cards[k]] > 0;
    }
  }

  /** A hand with a score below 21 has at most ten cards. */
  lemma RoomForCard(deck: seq<nat>, n: nat, h: Hand, rest: multiset<nat>)
    requires IsDeck(deck) && n <= |deck| && multiset(deck[..n]) == multiset(h.cards) + rest
    requires BestScore(h) && h.score < 21
    ensures |h.cards| < MAX_HAND
  {
    hide HardTotal, IsDeck, Aces;
    FromDeck(deck, n, h.cards, rest);
    LowestHand(h.cards);
  }

  lemma DealPlayer(g: Game, rng: Draws)
    requires IsDeck(g.deck) && Dealt(g) && g.player.score < 21
    ensures var g1 := GivePlayer(g, rng);
      && Dealt(g1) && g1.deck == g.deck && g1.dealer == g.dealer && g1.state == g.state
      && |g1.player.cards| == |g.player.cards| + 1
      && IsCard(g.deck[g.current]) && g1.player == Give(g.player, g.deck[g.current])
  {
    hide BestScore, IsDeck, Give, HardTotal;
    DeckSize(g.deck);
    RoomForCard(g.deck, g.current, g.player, multiset(g.dealer.cards));
    DeckCards(g.deck, g.current);
    GiveBest(g.player, g.deck[g.current]);
    assert g.deck[..g.current + 1] == g.deck[..g.current] + [g.deck[g.current]];
  }

  lemma DealDealer(g: Game, rng: Draws)
    requires IsDeck(g.deck) && Dealt(g) && g.dealer.score < 21
    ensures var g1 := GiveDealer(g, rng);
      && Dealt(g1) && g1.deck == g.deck && g1.player == g.player && g1.state == g.state
      && |g1.dealer.cards| == |g.dealer.cards| + 1
      && IsCard(g.deck[g.current]) && g1.dealer == Give(g.dealer, g.deck[g.current])
      && HardTotal(g1.dealer.cards) > HardTotal(g.dealer.cards)
  {
    hide BestScore, IsDeck, Give, HardTotal;
    DeckSize(g.deck);
    assert multiset(g.deck[..g.current]) == multiset(g.dealer.cards) + multiset(g.player.cards);
    RoomForCard(g.deck, g.current, g.dealer, multiset(g.player.cards));
    DeckCards(g.deck, g.current);
    GiveBest(g.dealer, g.deck[g.current]);
    assert g.deck[..g.current + 1] == g.deck[..g.current] + [g.deck[g.current]];
  }

  lemma DeckSize(deck: seq<nat>)
    requires IsDeck(deck)
    ensures |deck| == DECK_SIZE
  {
  }

  /** The first card scores at most eleven, two cards at most 21. */
  lemma FirstCards(x: nat, y: nat)
    requires IsCard(x) && IsCard(y)
    ensures Give(EMPTY, x).score <= 11
    ensures Give(Give(EMPTY, x), y).score <= 21
  {
    var first := Give(EMPTY, x);
    assert first == Hand(CardValue(x), if x == ACE then 1 else 0, [x]);
    var dealt := Hand(first.score + CardValue(y), first.highAces + (if y == ACE then 1 else 0), first.cards + [y]);
    assert dealt.score <= 22 && (dealt.score == 22 ==> dealt.highAces == 2);
    if dealt.score == 22 {
      assert ReduceAces(dealt) == ReduceAces(dealt.(score := 12, highAces := 1));
    }
  }

  lemma EmptyBest()
    ensures BestScore(EMPTY)
  {
  }

  lemma BeginInv(g: Game, rng: Draws)
    requires IsDeck(g.deck)
    ensures Inv(Begin(g, rng)) && Begin(g, rng).state == Playing && |Begin(g, rng).player.cards| == 2
  {
    hide BestScore, IsDeck, Give, Shuffled, GivePlayer, GiveDealer;
    DeckSize(g.deck);
    var g0 := ResetDeck(g.(state := Playing, player := EMPTY, dealer := EMPTY), rng);
    ResetIsDeck(g, rng);
    EmptyBest();
    assert g0.deck[..0] == [];
    DealPlayer(g0, rng);
    var g1 := GivePlayer(g0, rng);
    FirstCards(g0.deck[g0.current], g0.deck[g0.current]);
    DealPlayer(g1, rng);
    var g2 := GivePlayer(g1, rng);
    FirstCards(g0.deck[g0.current], g0.deck[g1.current]);
    DealDealer(g2, rng);
    FirstCards(g0.deck[g2.current], g0.deck[g2.current]);
  }

  lemma ResetIsDeck(g: Game, rng: Draws)
    requires IsDeck(g.deck)
    ensures IsDeck(ResetDeck(g, rng).deck)
  {
    hide Shuffled;
    ShuffleKeeps(g.deck, DECK_SIZE - 1, rng, g.drawn);
  }

  lemma DealerTurnInv(g: Game, rng: Draws)
    requires Inv(g) && g.state == DealerPlaying
    ensures Inv(DealerTurn(g, rng))
    ensures DealerTurn(g, rng).state == DealerPlaying ==>
      g.dealer.score <= 16 && HardTotal(DealerTurn(g, rng).dealer.cards) > HardTotal(g.dealer.cards)
    ensures DealerTurn(g, rng).state == DealerPlaying || DealerTurn(g, rng).state == Result
  {
    hide BestScore, IsDeck, Give, HardTotal, GiveDealer, Dealt;
    DeckSize(g.deck);
    if g.dealer.score <= 16 {
      DealDealer(g, rng);
    }
    DealtIgnoresState(g);
    DealtIgnoresState(GiveDealer(g, rng));
  }

  lemma DealtIgnoresState(g: Game)
    ensures forall s, v :: Dealt(g.(state := s, verdict := v)) == Dealt(g)
    ensures forall s :: Dealt(g.(state := s)) == Dealt(g)
  {
  }

  /**
   In every state a run can reach, the deck is four of each rank, a round never runs out of it, every
   hand has at most eleven cards and its best score, and an announced result is the fair one.
   */
  lemma StepInv(g: Game, e: Event, rng: Draws)
    requires |g.deck| == DECK_SIZE
    requires e.Activate? || Inv(g)
    ensures Inv(Step(g, e, rng))
  {
    hide BestScore, IsDeck, Give, GivePlayer, DealerTurn, Dealt, Stacked;
    DealtIgnoresState(g);
    if e.Activate? {
      StackedIsDeck();
    } else if g.state == DealerPlaying {
      DealerTurnInv(g, rng);
    } else if e.Press? && g.state == TitleScreen {
      BeginInv(g, rng);
    } else if e.Press? && g.state == Playing && g.player.score < 21 {
      DealPlayer(g, rng);
      DealtIgnoresState(GivePlayer(g, rng));
    }
  }

  function Run(g: Game, events: seq<Event>, rng: Draws): (r: Game)
    requires |g.deck| == DECK_SIZE
    ensures |r.deck| == DECK_SIZE
  {
    if events == [] then g else Step(Run(g, events[..|events| - 1], rng), events[|events| - 1], rng)
  }

  /** In any run after activation no round draws past the 22nd card, so the deck is never exhausted or reshuffled. */
  lemma {:induction false} RunInv(g: Game, events: seq<Event>, rng: Draws)
    requires |g.deck| == DECK_SIZE
    requires events != [] && events[0].Activate?
    ensures Inv(Run(g, events, rng))
    ensures Run(g, events, rng).state in {Playing, DealerPlaying, Bust, Result} ==>
      Run(g, events, rng).current <= 2 * MAX_HAND
    decreases |events|
  {
    hide Step, IsDeck, BestScore;
    var n := |events| - 1;
    if n > 0 {
      RunInv(g, events[..n], rng);
    }
    StepInv(Run(g, events[..n], rng), events[n], rng);
  }

  // The dealer.

  function Ticks(g: Game, n: nat, rng: Draws): (r: Game)
    requires |g.deck| == DECK_SIZE
    ensures |r.deck| == DECK_SIZE
    decreases n
  {
    if n == 0 then g else Ticks(Step(g, Tick, rng), n - 1, rng)
  }

  lemma {:induction false} ResultStays(g: Game, n: nat, rng: Draws)
    requires |g.deck| == DECK_SIZE && g.state == Result
    ensures Ticks(g, n, rng) == g
  {
    if n > 0 {
      ResultStays(g, n - 1, rng);
    }
  }

  /** The dealer's hard total grows with every card, so play ends: within 18 ticks the result is announced. */
  lemma {:induction false} DealerFinishes(g: Game, n: nat, rng: Draws)
    requires Inv(g) && g.state == DealerPlaying
    requires n + HardTotal(g.dealer.cards) >= 18
    requires n > 0
    ensures var r := Ticks(g, n, rng);
      r.state == Result && r.player == g.player && r.verdict == Fair(r.player.score, r.dealer.score) && r.verdict != Nothing
    decreases n
  {
    hide HardTotal, Aces, DealerTurn, IsDeck;
    DeckSize(g.deck);
    assert Dealt(g) && HardTotal(g.dealer.cards) <= g.dealer.score;
    DealerTurnInv(g, rng);
    DealerTurnPlayer(g, rng);
    var g1 := Step(g, Tick, rng);
    DeckSize(g1.deck);
    if g1.state == Result {
      ResultStays(g1, n - 1, rng);
    } else {
      DealerFinishes(g1, n - 1, rng);
    }
  }

  lemma DealerTurnPlayer(g: Game, rng: Draws)
    requires IsDeck(g.deck)
    ensures DealerTurn(g, rng).player == g.player
  {
  }

  // The face as the firmware updates it.

  class BlackjackFace {
    var state: GameState
    const deck: array<nat>
    var current: nat
    var player: Hand
    var dealer: Hand
    var verdict: Verdict
    const rng: Draws
    var drawn: nat

    ghost predicate Shape()
      reads this
    {
      deck.Length == DECK_SIZE
    }

    ghost function Abs(): Game
      reads this, deck
    {
      Game(state, deck[..], current, drawn, player, dealer, verdict)
    }

    constructor (rng: Draws)
      ensures Shape() && fresh(deck) && this.rng == rng
    {
      state, current, player, dealer, verdict, drawn := TitleScreen, 0, EMPTY, EMPTY, Nothing, 0;
      this.rng := rng;
      deck := new nat[DECK_SIZE](_ => 0);
    }

    method StackDeck()
      requires Shape()
      modifies deck
      ensures deck[..] == Stacked(RANKS)
    {
      hide Stacked;
      NoneStacked();
      for i := 0 to RANKS
        invariant deck[..SUITS * i] == Stacked(i)
      {
        for j := 0 to SUITS
          invariant deck[..SUITS * i] == Stacked(i)
          invariant forall k :: SUITS * i <= k < SUITS * i + j ==> deck[k] == MIN_CARD + i
        {
          deck[SUITS * i + j] := MIN_CARD + i;
        }
        NextStacked(i);
        assert deck[..SUITS * (i + 1)] == deck[..SUITS * i] + deck[SUITS * i..SUITS * (i + 1)];
        assert deck[SUITS * i..SUITS * (i + 1)] == Suits(MIN_CARD + i);
      }
      assert deck[..] == deck[..SUITS * RANKS];
    }

    method ShuffleDeck()
      requires Shape()
      modifies deck, this`drawn
      ensures deck[..] == Shuffled(old(deck[..]), DECK_SIZE - 1, rng, old(drawn))
      ensures drawn == old(drawn) + (DECK_SIZE - 1)
    {
      var i := DECK_SIZE - 1;
      while i > 0
        invariant 0 <= i < DECK_SIZE && drawn + i == old(drawn) + (DECK_SIZE - 1)
        invariant Shuffled(deck[..], i, rng, drawn) == Shuffled(old(deck[..]), DECK_SIZE - 1, rng, old(drawn))
      {
        var j := rng(drawn) % (i + 1);
        drawn := drawn + 1;
        ghost var before := deck[..];
        var card := deck[j];
        deck[j] := deck[i];
        deck[i] := card;
        assert deck[..] == Swapped(before, j, i);
        i := i - 1;
      }
    }

    method ResetTheDeck()
      requires Shape()
      modifies deck, this`drawn, this`current
      ensures Abs() == ResetDeck(old(Abs()), rng)
    {
      hide Shuffled;
      current := 0;
      ShuffleDeck();
    }

    method GetNextCard() returns (card: nat)
      requires Shape()
      modifies deck, this`drawn, this`current
      ensures (Abs(), card) == NextCard(old(Abs()), rng)
    {
      hide Shuffled;
      if current >= DECK_SIZE {
        ResetTheDeck();
      }
      card := deck[current];
      current := current + 1;
    }

    /** Deals one card to a hand, which has room for it. */
    method GiveCard(hand: Hand) returns (r: Hand)
      requires Shape() && |hand.cards| < MAX_HAND
      modifies deck, this`drawn, this`current
      ensures var (g, card) := NextCard(old(Abs()), rng); Abs() == g && r == Give(hand, card)
      ensures |r.cards| == |hand.cards| + 1
    {
      hide Shuffled;
      var card := GetNextCard();
      r := hand;
      if card == ACE {
        r := r.(highAces := r.highAces + 1);
      }
      r := r.(cards := r.cards + [card]);
      r := r.(score := r.score + CardValue(card));
      ghost var dealt := r;
      while r.score > 21 && r.highAces > 0
        invariant ReduceAces(r) == ReduceAces(dealt) && r.cards == dealt.cards
        decreases r.highAces
      {
        r := r.(score := r.score - 10, highAces := r.highAces - 1);
      }
    }

    method BeginPlaying()
      requires Shape()
      modifies this, deck
      ensures Abs() == Begin(old(Abs()), rng)
    {
      hide Shuffled, Give;
      state := Playing;
      player, dealer := EMPTY, EMPTY;
      ResetTheDeck();
      player := GiveCard(player);
      player := GiveCard(player);
      dealer := GiveCard(dealer);
    }

    /** Between events after activation. */
    ghost predicate Valid()
      reads this, deck
    {
      Shape() && Inv(Abs())
    }

    method ShowVerdict(v: Verdict)
      modifies this`state, this`verdict
      ensures Abs() == Announce(old(Abs()), v)
    {
      state := Result;
      verdict := v;
    }

    method PerformHit()
      requires Valid() && state == Playing
      modifies this, deck
      ensures Shape() && Abs() == PlayerHits(old(Abs()), rng)
    {
      hide Give, IsDeck, BestScore;
      if player.score == 21 {
        state := DealerPlaying;
        return;
      }
      RoomForCard(deck[..], current, player, multiset(dealer.cards));
      player := GiveCard(player);
      if player.score > 21 {
        state := Bust;
      }
    }

    method SeeIfDealerHits()
      requires Valid() && state == DealerPlaying
      modifies this, deck
      ensures Shape() && Abs() == DealerTurn(old(Abs()), rng)
    {
      hide Give, IsDeck, BestScore;
      if dealer.score > 16 {
        if dealer.score > player.score {
          ShowVerdict(Lose);
        } else if dealer.score < player.score {
          ShowVerdict(Win);
        } else {
          ShowVerdict(Tie);
        }
      } else {
        assert multiset(deck[..][..current]) == multiset(dealer.cards) + multiset(player.cards);
        RoomForCard(deck[..], current, dealer, multiset(player.cards));
        dealer := GiveCard(dealer);
        if dealer.score > 21 {
          ShowVerdict(Win);
        } else if dealer.score > player.score {
          ShowVerdict(Lose);
        }
      }
    }

    method HandleButton(hit: bool)
      requires Valid()
      modifies this, deck
      ensures Valid() && Abs() == Step(old(Abs()), Press(hit), rng)
    {
      hide Begin, DealerTurn, PlayerHits, Inv;
      StepInv(Abs(), Press(hit), rng);
      match state {
        case TitleScreen => BeginPlaying();
        case Playing =>
          if hit {
            PerformHit();
          } else {
            state := DealerPlaying;
          }
        case DealerPlaying => SeeIfDealerHits();
        case Bust => ShowVerdict(Busted);
        case _ => state := TitleScreen;
      }
    }

    method Activated()
      requires Shape()
      modifies this`state, deck
      ensures Valid() && Abs() == Step(old(Abs()), Activate, rng)
    {
      hide Inv, Stacked;
      StepInv(Abs(), Activate, rng);
      state := TitleScreen;
      StackDeck();
    }

    method Ticked()
      requires Valid()
      modifies this, deck
      ensures Valid() && Abs() == Step(old(Abs()), Tick, rng)
    {
      hide Inv, DealerTurn;
      StepInv(Abs(), Tick, rng);
      if state == DealerPlaying {
        SeeIfDealerHits();
      } else if state == Bust {
        ShowVerdict(Busted);
      }
    }
  }

  lemma NoneStacked()
    ensures Stacked(0) == []
  {
  }

  lemma NextStacked(i: nat)
    ensures Stacked(i + 1) == Stacked(i) + Suits(MIN_CARD + i)
  {
  }
}
