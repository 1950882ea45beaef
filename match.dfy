/** The state of the CardGame component: the eight state variables it keeps
    (both hands, the centre pile, both scores, the log, the game-over flag
    and whose turn it is) and the transitions that update them: initGame,
    addToGameLog, playCard and botPlay. The 1000 ms timer between playCard
    and botPlay is modelled as two separate transitions, with PlayRound
    running them back to back. */
module Match {
  import opened Cards
  import opened Deck

  datatype Option<T> = None | Some(value: T)

  datatype Side = Player | Bot

  /** An entry of the centre pile: `{ card, player }`. */
  datatype PileEntry = PileEntry(card: Card, player: Side)

  /** The messages the game writes to its log. */
  datatype LogEntry =
    | PlayerPlayed(card: Card)
    | BotPlayed(card: Card)
    | NoCardForComparison
    | RoundResult(outcome: Outcome)

  /** The cards of a pile, bottom first. */
  function PileCards(pile: seq<PileEntry>): (cards: seq<Card>)
    ensures |cards| == |pile|
  {
    if pile == [] then [] else PileCards(pile[..|pile| - 1]) + [pile[|pile| - 1].card]
  }

  lemma PileCardsAppend(pile: seq<PileEntry>, e: PileEntry)
    ensures PileCards(pile + [e]) == PileCards(pile) + [e.card]
  {
    assert (pile + [e])[..|pile|] == pile;
  }

  /** Card conservation: the dealt cards are distinct and are exactly
      the cards in the two hands and the pile. */
  ghost predicate Conserved(playerHand: seq<Card>, botHand: seq<Card>, pile: seq<PileEntry>, dealt: seq<Card>)
  {
    |dealt| == 2 * HAND_SIZE && NoDuplicates(dealt) &&
    multiset(playerHand) + multiset(botHand) + multiset(PileCards(pile)) == multiset(dealt)
  }

  /** The deal puts the first 14 cards of a duplicate-free deck in the
      two hands and leaves the pile empty. */
  lemma DealConserves(deck: seq<Card>)
    requires |deck| >= 2 * HAND_SIZE && NoDuplicates(deck)
    ensures Conserved(PlayerDeal(deck), BotDeal(deck), [], deck[..2 * HAND_SIZE])
  {
    DealDisjoint(deck);
    assert NoDuplicates(deck[..2 * HAND_SIZE]) by {
      forall i, j | 0 <= i < j < 2 * HAND_SIZE
        ensures deck[..2 * HAND_SIZE][i] != deck[..2 * HAND_SIZE][j]
      {
      }
    }
  }

  /** Dealing from a shuffle of the canonical deck: two hands of 7 that
      share no card, holding between them 14 distinct cards. */
  lemma ShuffledDeal(choices: seq<nat>)
    requires ValidChoices(choices, |SUITS| * |RANKS|)
    ensures var deck := Shuffled(CanonicalDeck(), choices);
      && |PlayerDeal(deck)| == HAND_SIZE && |BotDeal(deck)| == HAND_SIZE
      && (forall c :: !(c in PlayerDeal(deck) && c in BotDeal(deck)))
      && Conserved(PlayerDeal(deck), BotDeal(deck), [], deck[..2 * HAND_SIZE])
  {
    var deck := Shuffled(CanonicalDeck(), choices);
    ShuffledCanonicalDeck(choices);
    DealDisjoint(deck);
    DealConserves(deck);
  }

  /** While cards are conserved no card is in two places at once: not in
      both hands, and not in a hand and on the pile. */
  lemma ConservedDisjoint(playerHand: seq<Card>, botHand: seq<Card>, pile: seq<PileEntry>, dealt: seq<Card>, c: Card)
    requires Conserved(playerHand, botHand, pile, dealt)
    ensures !(c in playerHand && c in botHand)
    ensures !(c in playerHand && c in PileCards(pile))
    ensures !(c in botHand && c in PileCards(pile))
  {
    NoDuplicatesCount(dealt, c);
    assert multiset(playerHand)[c] + multiset(botHand)[c] + multiset(PileCards(pile))[c] <= 1;
  }

  /** Moving a card from the player's hand to the pile conserves cards. */
  lemma PlayerMoveConserves(playerHand: seq<Card>, index: nat, botHand: seq<Card>, pile: seq<PileEntry>, dealt: seq<Card>)
    requires index < |playerHand|
    requires Conserved(playerHand, botHand, pile, dealt)
    ensures Conserved(RemoveAt(playerHand, index), botHand, pile + [PileEntry(playerHand[index], Player)], dealt)
  {
    PileCardsAppend(pile, PileEntry(playerHand[index], Player));
  }

  /** Moving the bot's front card to the pile conserves cards. The new
      values are parameters (primed) tied to the old ones by the requires. */
  lemma BotMoveConserves(playerHand: seq<Card>, botHand: seq<Card>, pile: seq<PileEntry>, dealt: seq<Card>,
                         botHand': seq<Card>, pile': seq<PileEntry>)
    requires botHand != []
    requires Conserved(playerHand, botHand, pile, dealt)
    requires botHand' == botHand[1..] && pile' == pile + [PileEntry(botHand[0], Bot)]
    ensures Conserved(playerHand, botHand', pile', dealt)
  {
    assert botHand == [botHand[0]] + botHand[1..];
    PileCardsAppend(pile, PileEntry(botHand[0], Bot));
  }

  /** The card the bot compares against: the top of the pile, if any. */
  function TopCard(pile: seq<PileEntry>): (top: Option<Card>)
    ensures top.None? <==> pile == []
    ensures top.Some? ==> top.value == pile[|pile| - 1].card
  {
    if |pile| > 0 then Some(pile[|pile| - 1].card) else None
  }

  /** splice(index, 1) on an index inside the hand. */
  function RemoveAt(hand: seq<Card>, index: nat): (rest: seq<Card>)
    requires index < |hand|
    ensures |rest| == |hand| - 1
    ensures forall k :: 0 <= k < index ==> rest[k] == hand[k]
    ensures forall k :: index <= k < |rest| ==> rest[k] == hand[k + 1]
    ensures multiset(rest) + multiset{hand[index]} == multiset(hand)
  {
    assert hand == hand[..index] + [hand[index]] + hand[index + 1..];
    hand[..index] + hand[index + 1..]
  }

  /** The number of round results with outcome o in a log. */
  function Results(log: seq<LogEntry>, o: Outcome): (n: nat)
    ensures n <= |log|
  {
    if log == [] then 0
    else Results(log[..|log| - 1], o) + (if log[|log| - 1] == RoundResult(o) then 1 else 0)
  }

  lemma ResultsAppend(log: seq<LogEntry>, e: LogEntry, o: Outcome)
    ensures Results(log + [e], o) == Results(log, o) + (if e == RoundResult(o) then 1 else 0)
  {
    assert (log + [e])[..|log|] == log;
  }

  /** The shape every reachable match state keeps, over the values of its
      fields. On the player's turn the hands are equally long and the game
      is over exactly when they are empty. On the bot's turn the bot holds
      one card more, the game is running and the player's card is on top
      of the pile. A finished game has both hands empty. Each score is the
      number of rounds the log records as won by that side, and the log
      records one result for every card the bot has played. */
  ghost predicate Reachable(playerHand: seq<Card>, botHand: seq<Card>, pile: seq<PileEntry>, log: seq<LogEntry>,
                            playerScore: nat, botScore: nat, isGameOver: bool, playerTurn: bool)
  {
    && (playerTurn ==> |playerHand| == |botHand| && (isGameOver <==> botHand == []))
    && (!playerTurn ==> |playerHand| + 1 == |botHand| && !isGameOver)
    && (!playerTurn ==> pile != [] && pile[|pile| - 1].player == Player)
    && (isGameOver ==> playerHand == [] && botHand == [])
    && playerScore == Results(log, PlayerWins)
    && botScore == Results(log, BotWins)
    && Results(log, PlayerWins) + Results(log, BotWins) + Results(log, Tie) + |botHand| == HAND_SIZE
  }

  /** The player's move keeps the shape and passes the turn to the bot.
      The new values are parameters (primed) tied to the old ones by the
      requires. */
  lemma PlayerMoveKeepsInvariant(playerHand: seq<Card>, botHand: seq<Card>, pile: seq<PileEntry>, log: seq<LogEntry>,
                                 playerScore: nat, botScore: nat, index: nat,
                                 playerHand': seq<Card>, pile': seq<PileEntry>, log': seq<LogEntry>)
    requires Reachable(playerHand, botHand, pile, log, playerScore, botScore, false, true)
    requires index < |playerHand|
    requires playerHand' == RemoveAt(playerHand, index)
    requires pile' == pile + [PileEntry(playerHand[index], Player)]
    requires log' == log + [PlayerPlayed(playerHand[index])]
    ensures Reachable(playerHand', botHand, pile', log', playerScore, botScore, false, false)
  {
    ResultsAppend(log, PlayerPlayed(playerHand[index]), PlayerWins);
    ResultsAppend(log, PlayerPlayed(playerHand[index]), BotWins);
    ResultsAppend(log, PlayerPlayed(playerHand[index]), Tie);
  }

  /** The bot's move, compared with the player's card on top of the pile,
      keeps the shape and returns the turn; the game is then over exactly
      when the bot has played its last card, and the log has gained the
      round's one result. The new values are parameters (primed) tied to
      the old ones by the requires. */
  lemma BotMoveKeepsInvariant(playerHand: seq<Card>, botHand: seq<Card>, pile: seq<PileEntry>, log: seq<LogEntry>,
                              playerScore: nat, botScore: nat,
                              botHand': seq<Card>, pile': seq<PileEntry>, log': seq<LogEntry>,
                              playerScore': nat, botScore': nat, isGameOver': bool)
    requires Reachable(playerHand, botHand, pile, log, playerScore, botScore, false, false)
    requires botHand != [] && pile != []
    requires botHand' == botHand[1..] && pile' == pile + [PileEntry(botHand[0], Bot)]
    requires var outcome := RoundOutcome(pile[|pile| - 1].card, botHand[0]);
      && log' == log + [BotPlayed(botHand[0]), RoundResult(outcome)]
      && playerScore' == playerScore + (if outcome == PlayerWins then 1 else 0)
      && botScore' == botScore + (if outcome == BotWins then 1 else 0)
    requires isGameOver' == (|botHand| <= 1)
    ensures Reachable(playerHand, botHand', pile', log', playerScore', botScore', isGameOver', true)
  {
    var outcome := RoundOutcome(pile[|pile| - 1].card, botHand[0]);
    var logged := log + [BotPlayed(botHand[0])];
    assert log' == logged + [RoundResult(outcome)];
    ResultsAppend(log, BotPlayed(botHand[0]), PlayerWins);
    ResultsAppend(log, BotPlayed(botHand[0]), BotWins);
    ResultsAppend(log, BotPlayed(botHand[0]), Tie);
    ResultsAppend(logged, RoundResult(outcome), PlayerWins);
    ResultsAppend(logged, RoundResult(outcome), BotWins);
    ResultsAppend(logged, RoundResult(outcome), Tie);
  }

  /** At game over the log accounts for the whole match: every one of the
      HAND_SIZE rounds ended in a win for one side or a tie, and the verdict
      the scores give is the verdict the logged results give. */
  lemma GameOverTally(playerHand: seq<Card>, botHand: seq<Card>, pile: seq<PileEntry>, log: seq<LogEntry>,
                      playerScore: nat, botScore: nat)
    requires Reachable(playerHand, botHand, pile, log, playerScore, botScore, true, true)
    ensures playerScore + botScore + Results(log, Tie) == HAND_SIZE
    ensures Verdict(playerScore, botScore) == Verdict(Results(log, PlayerWins), Results(log, BotWins))
  {
  }

  class MatchState {
    var playerHand: seq<Card>
    var botHand: seq<Card>
    var centerPile: seq<PileEntry>
    var playerScore: nat
    var botScore: nat
    var gameLog: seq<LogEntry>
    var isGameOver: bool
    var playerTurn: bool

    /** The 14 cards dealt at the last initGame. */
    ghost var dealt: seq<Card>

    /** The invariant of the game's state: the shape of Reachable, and
        the cards dealt at the last initGame are conserved. */
    ghost predicate Valid()
      reads this
    {
      && Reachable(playerHand, botHand, centerPile, gameLog, playerScore, botScore, isGameOver, playerTurn)
      && Conserved(playerHand, botHand, centerPile, dealt)
    }

    /** The guard of playCard, which is also what enables the hand's
        buttons: it is the player's turn and the game is still running. */
    predicate CanPlay()
      reads this
    {
      playerTurn && !isGameOver
    }

    /** While the hand's buttons are enabled in a valid state, the player
        has a card to click and the bot, holding as many, has one to
        answer with; once the game is over both hands are empty. */
    lemma CanPlayHasCards()
      requires Valid()
      ensures CanPlay() ==> playerHand != [] && |botHand| == |playerHand|
      ensures isGameOver ==> !CanPlay() && playerHand == [] && botHand == []
    {
    }

    /** The verdict banner: shown only once the game is over, and then
        decided by the final scores. */
    function DisplayedVerdict(): (v: Option<Outcome>)
      reads this
      ensures v.Some? <==> isGameOver
      ensures v == Some(PlayerWins) <==> isGameOver && playerScore > botScore
      ensures v == Some(BotWins) <==> isGameOver && playerScore < botScore
      ensures v == Some(Tie) <==> isGameOver && playerScore == botScore
    {
      if isGameOver then Some(Verdict(playerScore, botScore)) else None
    }

    /** Mounting the component: the state starts as the useState defaults
        and the mount effect deals the first match at once. */
    constructor (choices: seq<nat>)
      requires ValidChoices(choices, |SUITS| * |RANKS|)
      ensures Valid() && CanPlay()
      ensures playerHand == PlayerDeal(Shuffled(CanonicalDeck(), choices))
      ensures botHand == BotDeal(Shuffled(CanonicalDeck(), choices))
      ensures centerPile == [] && gameLog == [] && playerScore == 0 && botScore == 0
    {
      playerHand, botHand, centerPile := [], [], [];
      playerScore, botScore := 0, 0;
      gameLog := [];
      isGameOver, playerTurn := false, true;
      dealt := [];
      new;
      InitGame(choices);
    }

    /** initGame: shuffle a fresh deck, deal 7 cards to each side and reset
        everything else. Allowed from any state ("Play Again"). */
    method InitGame(choices: seq<nat>)
      requires ValidChoices(choices, |SUITS| * |RANKS|)
      modifies this
      ensures Valid() && CanPlay()
      ensures playerHand == PlayerDeal(Shuffled(CanonicalDeck(), choices))
      ensures botHand == BotDeal(Shuffled(CanonicalDeck(), choices))
      ensures |playerHand| == HAND_SIZE && |botHand| == HAND_SIZE
      ensures forall c :: !(c in playerHand && c in botHand)
      ensures centerPile == [] && gameLog == []
      ensures playerScore == 0 && botScore == 0
      ensures !isGameOver && playerTurn
    {
      var deck := NewDeck(choices);
      ShuffledDeal(choices);
      playerHand := PlayerDeal(deck);
      botHand := BotDeal(deck);
      centerPile := [];
      playerScore := 0;
      botScore := 0;
      gameLog := [];
      isGameOver := false;
      playerTurn := true;
      dealt := deck[..2 * HAND_SIZE];
    }

    /** addToGameLog: the log only ever grows at its end. */
    method AddToGameLog(message: LogEntry)
      modifies this`gameLog
      ensures gameLog == old(gameLog) + [message]
    {
      gameLog := gameLog + [message];
    }

    /** playCard(card, index), called by the button of the card at index.
        Outside the player's turn, or once the game is over, nothing
        changes. Otherwise the card leaves the hand, goes on the pile as the
        player's, is logged, and the turn passes to the bot. */
    method PlayCard(card: Card, index: nat)
      requires index < |playerHand| && playerHand[index] == card
      modifies this
      ensures old(Valid()) ==> Valid()
      ensures !old(CanPlay()) ==> unchanged(this)
      ensures old(CanPlay()) ==>
        && playerHand == RemoveAt(old(playerHand), index)
        && centerPile == old(centerPile) + [PileEntry(card, Player)]
        && gameLog == old(gameLog) + [PlayerPlayed(card)]
        && !playerTurn
        && botHand == old(botHand) && dealt == old(dealt)
        && playerScore == old(playerScore) && botScore == old(botScore)
        && isGameOver == old(isGameOver)
    {
      if !playerTurn || isGameOver {
        return;
      }
      if Valid() {
        PlayerMoveConserves(playerHand, index, botHand, centerPile, dealt);
        PlayerMoveKeepsInvariant(playerHand, botHand, centerPile, gameLog, playerScore, botScore, index,
                                 RemoveAt(playerHand, index), centerPile + [PileEntry(card, Player)],
                                 gameLog + [PlayerPlayed(card)]);
      }
      playerHand := RemoveAt(playerHand, index);
      centerPile := centerPile + [PileEntry(card, Player)];
      AddToGameLog(PlayerPlayed(card));
      playerTurn := false;
    }

    /** botPlay, run when the timer set by playCard fires. The bot plays
        its front card onto the pile and logs it; that card is compared with
        the card on top of the pile as the player left it. With no card
        there to compare, that is logged, nothing is scored and the turn
        returns. Otherwise the strictly higher value earns its side one
        point, equal values only log a tie, the game ends when the bot's
        hand is now empty, and the turn returns to the player. The bot's
        hand must hold a card (botHand[0] is read). botPlay only ever runs
        from the timer playCard sets; that the invariant survives it is
        BotMoveKeepsInvariant and BotMoveConserves over the values, and
        PlayRound for the state. */
    method BotPlay()
      requires botHand != []
      modifies this
      ensures playerTurn
      ensures botHand == old(botHand)[1..]
      ensures centerPile == old(centerPile) + [PileEntry(old(botHand)[0], Bot)]
      ensures playerHand == old(playerHand) && dealt == old(dealt)
      ensures old(centerPile) == [] ==>
        && gameLog == old(gameLog) + [BotPlayed(old(botHand)[0]), NoCardForComparison]
        && playerScore == old(playerScore) && botScore == old(botScore)
        && isGameOver == old(isGameOver)
      ensures old(centerPile) != [] ==>
        var outcome := RoundOutcome(old(centerPile)[|old(centerPile)| - 1].card, old(botHand)[0]);
        && gameLog == old(gameLog) + [BotPlayed(old(botHand)[0]), RoundResult(outcome)]
        && playerScore == old(playerScore) + (if outcome == PlayerWins then 1 else 0)
        && botScore == old(botScore) + (if outcome == BotWins then 1 else 0)
        && isGameOver == (old(isGameOver) || botHand == [])
    {
      var botCard := botHand[0];
      var handBefore := |botHand|;
      var pileBefore := centerPile;
      botHand := botHand[1..];
      centerPile := centerPile + [PileEntry(botCard, Bot)];
      AddToGameLog(BotPlayed(botCard));

      var playerCard := TopCard(pileBefore);
      if playerCard.None? {
        AddToGameLog(NoCardForComparison);
        playerTurn := true;
        return;
      }
      ScoreRound(playerCard.value, botCard);
      if handBefore <= 1 {
        isGameOver := true;
      }
      playerTurn := true;
    }

    /** The comparison step of botPlay: the strictly higher value earns
        its side one point and the result is logged. */
    method ScoreRound(playerCard: Card, botCard: Card)
      modifies this`playerScore, this`botScore, this`gameLog
      ensures var outcome := RoundOutcome(playerCard, botCard);
        && gameLog == old(gameLog) + [RoundResult(outcome)]
        && playerScore == old(playerScore) + (if outcome == PlayerWins then 1 else 0)
        && botScore == old(botScore) + (if outcome == BotWins then 1 else 0)
    {
      if CardValue(botCard.rank) > CardValue(playerCard.rank) {
        botScore := botScore + 1;
        AddToGameLog(RoundResult(BotWins));
      } else if CardValue(botCard.rank) < CardValue(playerCard.rank) {
        playerScore := playerScore + 1;
        AddToGameLog(RoundResult(PlayerWins));
      } else {
        AddToGameLog(RoundResult(Tie));
      }
    }

    /** One full round as the player sees it: playCard, then botPlay when
        its timer fires. The bot always finds the player's card on the pile,
        the bot's front card is compared with it, at most one score rises,
        and the match ends exactly when this round used the bot's last
        card, which leaves both hands empty. */
    method PlayRound(card: Card, index: nat)
      requires Valid() && CanPlay()
      requires index < |playerHand| && playerHand[index] == card
      modifies this
      ensures Valid() && playerTurn
      ensures |old(botHand)| > 0
      ensures playerHand == RemoveAt(old(playerHand), index)
      ensures botHand == old(botHand)[1..]
      ensures centerPile == old(centerPile) + [PileEntry(card, Player), PileEntry(old(botHand)[0], Bot)]
      ensures var outcome := RoundOutcome(card, old(botHand)[0]);
        && gameLog == old(gameLog) + [PlayerPlayed(card), BotPlayed(old(botHand)[0]), RoundResult(outcome)]
        && playerScore == old(playerScore) + (if outcome == PlayerWins then 1 else 0)
        && botScore == old(botScore) + (if outcome == BotWins then 1 else 0)
      ensures isGameOver <==> |old(botHand)| == 1
      ensures isGameOver <==> playerHand == [] && botHand == []
    {
      PlayCard(card, index);
      ghost var played := centerPile;
      ghost var logged := gameLog;
      BotPlay();
      BotMoveConserves(playerHand, old(botHand), played, dealt, botHand, centerPile);
      BotMoveKeepsInvariant(playerHand, old(botHand), played, logged, old(playerScore), old(botScore),
                            botHand, centerPile, gameLog, playerScore, botScore, isGameOver);
    }
  }
}
