/** Cards, ranks and suits of the game, the rank-value table (getCardValue)
    and the two comparisons built on it: the outcome of a round and the
    verdict shown when the match is over. */
module Cards {

  datatype Suit = Spades | Hearts | Diamonds | Clubs

  datatype Rank = Ace | Two | Three | Four | Five | Six | Seven
                | Eight | Nine | Ten | Jack | Queen | King

  /** A card as the game holds it: `{ rank, suit }`. */
  datatype Card = Card(rank: Rank, suit: Suit)

  /** The suits in the order the deck is built from. */
  const SUITS: seq<Suit> := [Spades, Hearts, Diamonds, Clubs]

  /** The ranks in the order the deck is built from, lowest value first. */
  const RANKS: seq<Rank> := [Ace, Two, Three, Four, Five, Six, Seven,
                             Eight, Nine, Ten, Jack, Queen, King]

  /** Who wins a round, and who wins the match. */
  datatype Outcome = PlayerWins | BotWins | Tie

  /** getCardValue: A is 1, the number cards are their number, J, Q and K
      are 11, 12 and 13 (no ace-high rule). The value of a rank is its
      1-based position in RANKS (see RankAtValue). */
  function CardValue(rank: Rank): (v: nat)
    ensures 1 <= v <= |RANKS|
  {
    match rank
    case Ace => 1
    case Two => 2
    case Three => 3
    case Four => 4
    case Five => 5
    case Six => 6
    case Seven => 7
    case Eight => 8
    case Nine => 9
    case Ten => 10
    case Jack => 11
    case Queen => 12
    case King => 13
  }

  /** The 0-based position of a suit in SUITS (see SuitAtIndex). */
  function SuitIndex(suit: Suit): (k: nat)
    ensures k < |SUITS|
  {
    match suit
    case Spades => 0
    case Hearts => 1
    case Diamonds => 2
    case Clubs => 3
  }

  /** A rank's value locates it in RANKS. */
  lemma RankAtValue(rank: Rank)
    ensures RANKS[CardValue(rank) - 1] == rank
  {
    match rank
    case Ace => case Two => case Three => case Four => case Five => case Six => case Seven =>
    case Eight => case Nine => case Ten => case Jack => case Queen => case King =>
  }

  /** A suit's index locates it in SUITS. */
  lemma SuitAtIndex(suit: Suit)
    ensures SUITS[SuitIndex(suit)] == suit
  {
    match suit
    case Spades => case Hearts => case Diamonds => case Clubs =>
  }

  /** No rank is listed twice in RANKS. */
  lemma RanksDistinct(i: nat, j: nat)
    requires i < j < |RANKS|
    ensures RANKS[i] != RANKS[j]
  {
    if i == 0 {} else if i == 1 {} else if i == 2 {} else if i == 3 {}
    else if i == 4 {} else if i == 5 {} else if i == 6 {} else if i == 7 {}
    else if i == 8 {} else if i == 9 {} else if i == 10 {} else {}
  }

  /** The value of the k-th rank of RANKS is k + 1. */
  lemma CardValueOfRanks(k: nat)
    requires k < |RANKS|
    ensures CardValue(RANKS[k]) == k + 1
  {
    var v := CardValue(RANKS[k]);
    RankAtValue(RANKS[k]);
    if v - 1 < k {
      RanksDistinct(v - 1, k);
    } else if k < v - 1 {
      RanksDistinct(k, v - 1);
    }
  }

  /** The value of the k-th suit of SUITS is k. */
  lemma SuitIndexOfSuits(k: nat)
    requires k < |SUITS|
    ensures SuitIndex(SUITS[k]) == k
  {
  }

  /** Values strictly increase along RANKS, from A = 1 to K = 13. */
  lemma CardValuesIncrease(i: nat, j: nat)
    requires i < j < |RANKS|
    ensures 1 <= CardValue(RANKS[i]) < CardValue(RANKS[j]) <= 13
  {
    CardValueOfRanks(i);
    CardValueOfRanks(j);
  }

  /** The comparison of a round (the bot's card against the player's):
      the card with the strictly higher value wins, equal values tie. */
  function RoundOutcome(playerCard: Card, botCard: Card): (o: Outcome)
    ensures o == BotWins <==> CardValue(botCard.rank) > CardValue(playerCard.rank)
    ensures o == PlayerWins <==> CardValue(botCard.rank) < CardValue(playerCard.rank)
    ensures o == Tie <==> playerCard.rank == botCard.rank
  {
    if CardValue(botCard.rank) > CardValue(playerCard.rank) then BotWins
    else if CardValue(botCard.rank) < CardValue(playerCard.rank) then PlayerWins
    else Tie
  }

  /** The verdict of a finished match, by the final scores. */
  function Verdict(playerScore: nat, botScore: nat): (v: Outcome)
    ensures v == PlayerWins <==> playerScore > botScore
    ensures v == BotWins <==> playerScore < botScore
    ensures v == Tie <==> playerScore == botScore
  {
    if playerScore > botScore then PlayerWins
    else if playerScore < botScore then BotWins
    else Tie
  }
}
