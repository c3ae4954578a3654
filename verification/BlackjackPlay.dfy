/** What a player of the blackjack face sees: the cards dealt, the end of a round, and a shuffle that reaches every order. */
module BlackjackPlay {
  import opened Blackjack

  // The value of a hand.

  /** One ace counts eleven if that does not exceed 21; a second never can. */
  function BestTotal(cards: seq<nat>): nat {
    if Aces(cards) > 0 && HardTotal(cards) + 10 <= 21 then HardTotal(cards) + 10 else HardTotal(cards)
  }

  lemma {:induction false} AcesCount(cards: seq<nat>)
    ensures HardTotal(cards) >= Aces(cards)
  {
    if cards != [] {
      var n := |cards| - 1;
      AcesCount(cards[..n]);
      assert cards == cards[..n] + [cards[n]];
    }
  }

  lemma BestIsTotal(h: Hand)
    requires BestScore(h)
    ensures h.score == BestTotal(h.cards)
  {
    hide HardTotal, Aces;
    AcesCount(h.cards);
    if h.highAces == 0 && Aces(h.cards) > 0 {
      assert HardTotal(h.cards) + 10 * 1 > 21;
    }
  }

  // One event at a time.

  /** A new round: two cards for the player, one for the dealer, from the top of a shuffled deck. */
  lemma RoundBegins(g: Game, rng: Draws)
    requires IsDeck(g.deck) && g.state == TitleScreen
    ensures
      var g1 := Step(g, Press(true), rng);
      && Step(g, Press(false), rng) == g1
      && g1.state == Playing && g1.deck == Shuffled(g.deck, DECK_SIZE - 1, rng, g.drawn)
      && g1.current == 3 && g1.player.cards == g1.deck[..2] && g1.dealer.cards == [g1.deck[2]]
  {
    hide BestScore, IsDeck, Give, Shuffled, GivePlayer, GiveDealer, Dealt;
    DeckSize(g.deck);
    ResetIsDeck(g, rng);
    var g0 := ResetDeck(g.(state := Playing, player := EMPTY, dealer := EMPTY), rng);
    NothingDealt(g0);
    DealPlayer(g0, rng);
    FirstCards(g0.deck[0], g0.deck[0]);
    var g1 := GivePlayer(g0, rng);
    Moves(g0, rng);
    DealPlayer(g1, rng);
    FirstCards(g0.deck[0], g0.deck[1]);
    var g2 := GivePlayer(g1, rng);
    Moves(g1, rng);
    DealDealer(g2, rng);
    Moves(g2, rng);
    GivesCard(EMPTY, g0.deck[0]);
    GivesCard(g1.player, g0.deck[1]);
    GivesCard(EMPTY, g0.deck[2]);
  }

  lemma NothingDealt(g: Game)
    requires IsDeck(g.deck) && g.current == 0 && g.player == EMPTY && g.dealer == EMPTY
    ensures Dealt(g) && EMPTY.score == 0
  {
    hide IsDeck, BestScore;
    EmptyBest();
    DeckSize(g.deck);
    assert g.deck[..0] == [];
    var none: seq<nat> := [];
    assert multiset(none) + multiset(none) == multiset(none);
  }

  /** Dealing takes the next card of a deck that is not used up. */
  lemma Moves(g: Game, rng: Draws)
    requires |g.deck| == DECK_SIZE && g.current < DECK_SIZE
    ensures GivePlayer(g, rng).current == g.current + 1 && GivePlayer(g, rng).dealer == g.dealer
    ensures GiveDealer(g, rng).current == g.current + 1 && GiveDealer(g, rng).player == g.player
  {
  }

  lemma {:induction false} ReduceKeepsCards(h: Hand)
    ensures ReduceAces(h).cards == h.cards
    decreases h.highAces
  {
    if h.score > 21 && h.highAces > 0 {
      ReduceKeepsCards(h.(score := h.score - 10, highAces := h.highAces - 1));
    }
  }

  lemma GivesCard(h: Hand, card: nat)
    ensures Give(h, card).cards == h.cards + [card]
  {
    hide ReduceAces;
    ReduceKeepsCards(Hand(h.score + CardValue(card), h.highAces + (if card == ACE then 1 else 0), h.cards + [card]));
  }

  /** The player stands, or hits: on 21 that stands too, else it takes the next card, and above 21 the hand is bust. */
  lemma PlayerTurn(g: Game, rng: Draws)
    requires Inv(g) && g.state == Playing
    ensures |g.deck| == DECK_SIZE && g.current < DECK_SIZE
    ensures Step(g, Press(false), rng) == g.(state := DealerPlaying)
    ensures
      var g1 := Step(g, Press(true), rng);
      if BestTotal(g.player.cards) == 21 then g1 == g.(state := DealerPlaying)
      else
        && g1.deck == g.deck && g1.current == g.current + 1 && g1.dealer == g.dealer
        && g1.player.cards == g.player.cards + [g.deck[g.current]]
        && g1.state == if BestTotal(g1.player.cards) > 21 then Bust else Playing
  {
    hide BestScore, IsDeck, Give, GivePlayer, Dealt, BestTotal;
    DeckSize(g.deck);
    RoomInDeck(g);
    DealtScores(g);
    if g.player.score < 21 {
      DealPlayer(g, rng);
      Moves(g, rng);
      GivesCard(g.player, g.deck[g.current]);
      DealtScores(GivePlayer(g, rng));
    }
  }

  lemma RoomInDeck(g: Game)
    requires Dealt(g)
    ensures g.current <= 2 * MAX_HAND
  {
  }

  lemma DealtScores(g: Game)
    requires Dealt(g)
    ensures g.player.score == BestTotal(g.player.cards) && g.dealer.score == BestTotal(g.dealer.cards)
  {
    hide BestScore, BestTotal;
    BestIsTotal(g.player);
    BestIsTotal(g.dealer);
  }

  /** The dealer, at a tick or any button: above 16 it stands and the totals decide, up to 16 it takes the next card. */
  lemma DealerStep(g: Game, e: Event, rng: Draws)
    requires Inv(g) && g.state == DealerPlaying && (e.Tick? || e.Press?)
    ensures |g.deck| == DECK_SIZE && g.current < DECK_SIZE
    ensures
      var g1 := Step(g, e, rng);
      var player, dealer := BestTotal(g.player.cards), BestTotal(g1.dealer.cards);
      && g1.deck == g.deck && g1.player == g.player
      && (if BestTotal(g.dealer.cards) > 16 then g1.dealer == g.dealer && g1.current == g.current
          else g1.dealer.cards == g.dealer.cards + [g.deck[g.current]] && g1.current == g.current + 1)
      && g1.state == (if BestTotal(g.dealer.cards) > 16 || dealer > player then Result else DealerPlaying)
      && (g1.state == Result ==> g1.verdict == Fair(player, dealer))
  {
    hide BestScore, IsDeck, Give, GiveDealer, Dealt, BestTotal;
    DeckSize(g.deck);
    RoomInDeck(g);
    DealtScores(g);
    if g.dealer.score <= 16 {
      DealDealer(g, rng);
      Moves(g, rng);
      GivesCard(g.dealer, g.deck[g.current]);
      DealtScores(GiveDealer(g, rng));
    }
  }

  /** Every other event: a bust hand is announced, a result and the ratio lead to the title, and nothing else happens. */
  lemma OtherEvents(g: Game, rng: Draws)
    requires |g.deck| == DECK_SIZE
    ensures g.state == Bust ==> forall hit :: Step(g, Press(hit), rng) == g.(state := Result, verdict := Busted)
    ensures g.state == Bust ==> Step(g, Tick, rng) == g.(state := Result, verdict := Busted)
    ensures g.state == Result || g.state == WinRatio ==>
      forall hit :: Step(g, Press(hit), rng) == g.(state := TitleScreen)
    ensures g.state != Bust && g.state != DealerPlaying ==> Step(g, Tick, rng) == g
    ensures Step(g, LongLight, rng) == if g.state == TitleScreen then g.(state := WinRatio) else g
  {
    hide Begin, DealerTurn, PlayerHits;
  }

  // Whose the cards are.

  /** The player has the first two cards and those after the third; the dealer the third and those after the player's. */
  ghost predicate InTurn(g: Game) {
    var k := |g.player.cards| + 1;
    g.state in {Playing, DealerPlaying, Bust, Result} ==>
      && 3 <= k <= g.current <= |g.deck|
      && g.player.cards == g.deck[..2] + g.deck[3..k]
      && g.dealer.cards == [g.deck[2]] + g.deck[k..g.current]
      && (g.state == Playing || g.state == Bust ==> k == g.current)
  }

  lemma StepInTurn(g: Game, e: Event, rng: Draws)
    requires Inv(g) && InTurn(g) && !e.Activate?
    ensures |g.deck| == DECK_SIZE && InTurn(Step(g, e, rng))
  {
    hide Inv, InTurn, IsDeck, Step;
    OnlyADeck(g);
    DeckSize(g.deck);
    if e.Press? && g.state == TitleScreen {
      BeginInTurn(g, e, rng);
    } else if e.Press? && g.state == Playing {
      PlayInTurn(g, e, rng);
    } else if g.state == DealerPlaying && !e.LongLight? {
      DealInTurn(g, e, rng);
    } else {
      OtherInTurn(g, e, rng);
    }
  }

  lemma BeginInTurn(g: Game, e: Event, rng: Draws)
    requires IsDeck(g.deck) && g.state == TitleScreen && e.Press?
    ensures |g.deck| == DECK_SIZE && InTurn(Step(g, e, rng))
  {
    hide IsDeck, Step;
    DeckSize(g.deck);
    RoundBegins(g, rng);
    var g1 := Step(g, e, rng);
    assert g1.deck[3..3] == [];
  }

  lemma PlayInTurn(g: Game, e: Event, rng: Draws)
    requires Inv(g) && InTurn(g) && g.state == Playing && e.Press?
    ensures |g.deck| == DECK_SIZE && InTurn(Step(g, e, rng))
  {
    hide Inv, Step, BestTotal;
    PlayerTurn(g, rng);
    var d, c := g.deck, g.current;
    SliceMore(d, 3, c);
    assert d[..2] + (d[3..c] + [d[c]]) == d[..2] + d[3..c] + [d[c]];
    assert d[c + 1..c + 1] == d[c..c];
  }

  lemma DealInTurn(g: Game, e: Event, rng: Draws)
    requires Inv(g) && InTurn(g) && g.state == DealerPlaying && (e.Tick? || e.Press?)
    ensures |g.deck| == DECK_SIZE && InTurn(Step(g, e, rng))
  {
    hide Inv, Step, BestTotal, Fair;
    DealerStep(g, e, rng);
    var k := |g.player.cards| + 1;
    SliceMore(g.deck, k, g.current);
  }

  lemma SliceMore(d: seq<nat>, i: nat, c: nat)
    requires i <= c < |d|
    ensures d[i..c + 1] == d[i..c] + [d[c]]
  {
  }

  lemma OtherInTurn(g: Game, e: Event, rng: Draws)
    requires |g.deck| == DECK_SIZE && InTurn(g) && !e.Activate?
    requires e.Press? ==> g.state != TitleScreen && g.state != Playing
    requires g.state == DealerPlaying ==> e.LongLight?
    ensures InTurn(Step(g, e, rng))
  {
    hide Step;
    OtherEvents(g, rng);
  }

  lemma OnlyADeck(g: Game)
    requires Inv(g)
    ensures IsDeck(g.deck)
  {
  }

  /** In every run after activation the cards go to player and dealer in turn from the top of the deck. */
  lemma {:induction false} RunInTurn(g: Game, events: seq<Event>, rng: Draws)
    requires |g.deck| == DECK_SIZE && events != [] && events[0].Activate?
    ensures InTurn(Run(g, events, rng))
    decreases |events|
  {
    hide Step, InTurn, Inv;
    var n := |events| - 1;
    if events[n].Activate? {
      ActivateInTurn(Run(g, events[..n], rng), rng);
    } else {
      RunInTurn(g, events[..n], rng);
      RunInv(g, events[..n], rng);
      StepInTurn(Run(g, events[..n], rng), events[n], rng);
    }
  }

  lemma ActivateInTurn(g: Game, rng: Draws)
    requires |g.deck| == DECK_SIZE
    ensures InTurn(Step(g, Activate, rng))
  {
    hide Stacked;
  }

  // The dealer's play.

  /**
   The dealer draws while its total is at most 16 and, after its first draw, not above the player's, and not once
   more: where play ends its total exceeds 16 or the player's.
   */
  lemma {:induction false} DealerDraws(g: Game, n: nat, rng: Draws)
    requires Inv(g) && g.state == DealerPlaying && n > 0 && n + HardTotal(g.dealer.cards) >= 18
    ensures |g.deck| == DECK_SIZE
    ensures
      var r := Ticks(g, n, rng);
      && r.state == Result && g.current <= r.current <= DECK_SIZE
      && r.dealer.cards == g.dealer.cards + g.deck[g.current..r.current]
      && (BestTotal(r.dealer.cards) > 16 || BestTotal(r.dealer.cards) > BestTotal(g.player.cards))
      && forall j :: g.current <= j < r.current ==>
           var held := BestTotal(g.dealer.cards + g.deck[g.current..j]);
           held <= 16 && (j > g.current ==> held <= BestTotal(g.player.cards))
    decreases n
  {
    hide HardTotal, Aces, DealerTurn, IsDeck, Dealt, Step, BestTotal;
    OnlyADeck(g);
    DeckSize(g.deck);
    DealerStep(g, Tick, rng);
    TickTurns(g, rng);
    DealerTurnInv(g, rng);
    HardBelow(g);
    var g1 := Step(g, Tick, rng);
    NoSlice(g.deck, g.current, g.dealer.cards);
    if g1.state == Result {
      ResultStays(g1, n - 1, rng);
      if g1.current > g.current {
        SliceMore(g.deck, g.current, g.current);
      }
    } else {
      DealerDraws(g1, n - 1, rng);
      var r := Ticks(g1, n - 1, rng);
      SliceFirst(g.deck, g.current, r.current, g.dealer.cards);
      NoSlice(g.deck, g1.current, g1.dealer.cards);
      forall j | g.current < j < r.current
        ensures g.dealer.cards + g.deck[g.current..j] == g1.dealer.cards + g.deck[g1.current..j]
      {
        SliceFirst(g.deck, g.current, j, g.dealer.cards);
      }
    }
  }

  lemma NoSlice(d: seq<nat>, i: nat, cards: seq<nat>)
    requires i <= |d|
    ensures d[i..i] == [] && cards + d[i..i] == cards
  {
  }

  lemma SliceFirst(d: seq<nat>, i: nat, c: nat, cards: seq<nat>)
    requires i < c <= |d|
    ensures cards + d[i..c] == cards + [d[i]] + d[i + 1..c]
  {
    assert d[i..c] == [d[i]] + d[i + 1..c];
  }

  lemma TickTurns(g: Game, rng: Draws)
    requires |g.deck| == DECK_SIZE && g.state == DealerPlaying
    ensures Step(g, Tick, rng) == DealerTurn(g, rng)
  {
    hide DealerTurn;
  }

  lemma HardBelow(g: Game)
    requires Inv(g) && g.state == DealerPlaying
    ensures HardTotal(g.dealer.cards) <= g.dealer.score
  {
    hide HardTotal, Aces, IsDeck;
  }

  // The shuffle reaches every order.

  /** The numbers drawn from `at` on are these. */
  ghost predicate Draw(rng: Draws, at: nat, draws: seq<nat>) {
    forall i :: 0 <= i < |draws| ==> rng(at + i) == draws[i]
  }

  /** For every order of the deck there are draws that shuffle it into that order. */
  lemma {:induction false} ReachesEveryOrder(deck: seq<nat>, target: seq<nat>, i: nat) returns (draws: seq<nat>)
    requires |deck| == |target| && i < |deck|
    requires multiset(deck[..i + 1]) == multiset(target[..i + 1]) && deck[i + 1..] == target[i + 1..]
    ensures |draws| == i && forall k :: 0 <= k < i ==> draws[k] <= i
    ensures forall rng: Draws, at: nat :: Draw(rng, at, draws) ==> Shuffled(deck, i, rng, at) == target
    decreases i
  {
    hide Swapped, Shuffled, Draw;
    if i == 0 {
      draws := [];
      OneLeft(deck, target);
      NoShuffle(deck);
    } else {
      var j := Position(deck, target, i);
      SwapPlaces(deck, target, i, j);
      var rest := ReachesEveryOrder(Swapped(deck, j, i), target, i - 1);
      draws := [j] + rest;
      forall rng: Draws, at: nat | Draw(rng, at, draws)
        ensures Shuffled(deck, i, rng, at) == target
      {
        assert draws[1..] == rest;
        LaterDraws(rng, at, draws);
        FirstSwap(deck, i, rng, at);
      }
    }
  }

  lemma NoShuffle(deck: seq<nat>)
    requires deck != []
    ensures forall rng, at :: Shuffled(deck, 0, rng, at) == deck
  {
  }

  lemma FirstSwap(deck: seq<nat>, i: nat, rng: Draws, at: nat)
    requires 0 < i < |deck| && rng(at) <= i
    ensures Shuffled(deck, i, rng, at) == Shuffled(Swapped(deck, rng(at), i), i - 1, rng, at + 1)
  {
    hide Swapped;
    assert rng(at) % (i + 1) == rng(at);
  }

  lemma LaterDraws(rng: Draws, at: nat, draws: seq<nat>)
    requires draws != [] && Draw(rng, at, draws)
    ensures rng(at) == draws[0] && Draw(rng, at + 1, draws[1..])
  {
    assert rng(at + 0) == draws[0];
    forall i | 0 <= i < |draws| - 1
      ensures rng(at + 1 + i) == draws[1..][i]
    {
      assert rng(at + (i + 1)) == draws[i + 1];
    }
  }

  lemma OneLeft(deck: seq<nat>, target: seq<nat>)
    requires |deck| == |target| > 0 && multiset(deck[..1]) == multiset(target[..1]) && deck[1..] == target[1..]
    ensures deck == target
  {
    assert deck[0] in multiset(deck[..1]) && deck[..1] == [deck[0]] && target[..1] == [target[0]];
    assert deck == [deck[0]] + deck[1..] && target == [target[0]] + target[1..];
  }

  /** Where the card that belongs at `i` still is. */
  lemma Position(deck: seq<nat>, target: seq<nat>, i: nat) returns (j: nat)
    requires |deck| == |target| && i < |deck| && multiset(deck[..i + 1]) == multiset(target[..i + 1])
    ensures j <= i && deck[j] == target[i]
  {
    var front, wanted := deck[..i + 1], target[..i + 1];
    assert wanted[i] in multiset(wanted);
    assert target[i] in multiset(front);
    j :| 0 <= j < |front| && front[j] == target[i];
  }

  lemma SwapPlaces(deck: seq<nat>, target: seq<nat>, i: nat, j: nat)
    requires |deck| == |target| && j <= i < |deck| && deck[j] == target[i]
    requires multiset(deck[..i + 1]) == multiset(target[..i + 1]) && deck[i + 1..] == target[i + 1..]
    ensures
      var swapped := Swapped(deck, j, i);
      multiset(swapped[..i]) == multiset(target[..i]) && swapped[i..] == target[i..]
  {
    hide Swapped;
    SwapEnd(deck, i, j);
    TailIs(target, i);
    FrontSwap(deck[..i + 1], target[..i + 1], j);
    Shorter(Swapped(deck, j, i), i);
    Shorter(target, i);
  }

  lemma FrontSwap(front: seq<nat>, wanted: seq<nat>, j: nat)
    requires |front| == |wanted| && j < |front| && multiset(front) == multiset(wanted)
    requires front[j] == wanted[|wanted| - 1]
    ensures var i := |front| - 1; multiset(Swapped(front, j, i)[..i]) == multiset(wanted[..i])
  {
    var i := |front| - 1;
    SwapKeeps(front, j, i);
    LastCancels(Swapped(front, j, i), wanted);
  }

  lemma Shorter(s: seq<nat>, i: nat)
    requires i < |s|
    ensures s[..i + 1][..i] == s[..i]
  {
  }

  lemma TailIs(s: seq<nat>, i: nat)
    requires i < |s|
    ensures s[i..] == [s[i]] + s[i + 1..]
  {
  }

  lemma SwapEnd(deck: seq<nat>, i: nat, j: nat)
    requires j <= i < |deck|
    ensures Swapped(deck, j, i)[i..] == [deck[j]] + deck[i + 1..]
    ensures Swapped(deck, j, i)[..i + 1] == Swapped(deck[..i + 1], j, i)
  {
    var swapped, front := Swapped(deck, j, i), deck[..i + 1];
    assert swapped[i] == deck[j] && swapped[i + 1..] == deck[i + 1..];
  }

  lemma LastCancels(a: seq<nat>, b: seq<nat>)
    requires |a| == |b| > 0 && multiset(a) == multiset(b) && a[|a| - 1] == b[|b| - 1]
    ensures multiset(a[..|a| - 1]) == multiset(b[..|b| - 1])
  {
    var n := |a| - 1;
    FrontCounts(a);
    FrontCounts(b);
    forall v
      ensures multiset(a[..n])[v] == multiset(b[..n])[v]
    {
      assert multiset(a)[v] == multiset(b)[v];
    }
  }

  lemma FrontCounts(a: seq<nat>)
    requires a != []
    ensures var n := |a| - 1; forall v :: multiset(a)[v] == multiset(a[..n])[v] + if v == a[n] then 1 else 0
  {
    var n := |a| - 1;
    assert a == a[..n] + [a[n]];
  }

  /** So the draws of a shuffle, each below 255, can bring the deck into any order. */
  lemma AnyOrder(deck: seq<nat>, target: seq<nat>) returns (draws: seq<nat>)
    requires IsDeck(deck) && multiset(deck) == multiset(target)
    ensures |deck| == DECK_SIZE && |draws| == DECK_SIZE - 1 && forall k :: 0 <= k < |draws| ==> draws[k] < 0xFF
    ensures forall rng: Draws, at: nat :: Draw(rng, at, draws) ==> Shuffled(deck, DECK_SIZE - 1, rng, at) == target
  {
    hide IsDeck, Shuffled;
    DeckSize(deck);
    assert |multiset(deck)| == |deck| && |multiset(target)| == |target|;
    assert deck[..DECK_SIZE] == deck && target[..DECK_SIZE] == target;
    draws := ReachesEveryOrder(deck, target, DECK_SIZE - 1);
  }
}
