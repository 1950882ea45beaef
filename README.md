# Big-small card game: a Dafny model of the game logic

The `CardGame` component in `src/App.jsx` is a single-screen card game
in which a human plays against a bot. A fresh 52-card deck is built
suit by suit and rank by rank, then shuffled with Fisher-Yates. Each
side is dealt 7 cards. In each round:

- the player picks one card from their hand and puts it on the centre pile;
- one second later the bot plays the front card of its hand;
- the card with the strictly higher value wins the round and earns its
  side one point, where A = 1, the number cards count their number, and
  J, Q, K = 11, 12, 13;
- equal values only log a tie.

The match ends when the bot has played its last card. The banner then
names the side with the higher score, or a tie.

The model has three modules, one per layer of the component:

- `Cards` (`cards.dfy`) covers the suits, the ranks, and the `getCardValue`
  table. It also holds `RoundOutcome`, the comparison of one round, and
  `Verdict`, the expression that decides the banner.
- `Deck` (`deck.dfy`) covers `createDeck` and `shuffleDeck`. `CreateDeck`
  is a nested loop that appends cards. `ShuffleDeck` is a loop that swaps
  elements of an array holding a copy of the deck. Each method is proved
  against a specification function: `CanonicalDeck` for the first, and
  `Shuffled`/`FisherYatesFrom` for the second, which list the Fisher-Yates
  swaps. Separate lemmas prove that the shuffle is a permutation and that
  every card occurs once. This module also holds the two slices that form
  the hands.
- `Match` (`match.dfy`) covers the component's state. Class `MatchState`
  has one field per `useState` pair: `playerHand`, `botHand`,
  `centerPile`, `playerScore`, `botScore`, `gameLog`, `isGameOver` and
  `playerTurn`. It also has a ghost field `dealt` with the 14 cards of the
  last deal. The methods `InitGame`, `AddToGameLog`, `PlayCard` and
  `BotPlay` update those fields the way the component's handlers do.
  `CanPlay` is the guard of `playCard`, and the same condition disables
  the hand's buttons. `DisplayedVerdict` is the banner.

`Valid()` is the invariant of the state. It has two parts:

- `Conserved`: the dealt cards are distinct, and they are exactly the
  cards in the two hands plus those on the pile;
- `Reachable`:
  - on the player's turn the hands are equally long, and the game is
    over exactly when they are empty;
  - on the bot's turn the bot holds one card more, the game is running,
    and the player's card is on top of the pile;
  - each score is the number of rounds the log records as won by that
    side, and the log records one result (a win for either side or a
    tie) for every card the bot has played, so the results and the bot's
    remaining hand always add up to 7.

Randomness is a parameter. `choices[i]` is the index `j` that
`Math.floor(Math.random() * (i + 1))` would draw when position `i` of
the shuffle is filled. `ValidChoices` requires `0 <= j <= i`. The
1000 ms timer between `playCard` and `botPlay` becomes two separate
transitions. `PlayRound` runs them back to back, as the timer does.

## Model

| member | source | states |
|---|---|---|
| Cards.CardValue | src/App.jsx:26-32 | every rank's value lies between 1 and 13 |
| Cards.RankAtValue | src/App.jsx:26-32 | a rank's value is its 1-based place in RANKS |
| Cards.SuitAtIndex | src/App.jsx:3 | a suit's index is its place in SUITS |
| Cards.RanksDistinct | src/App.jsx:4 | no rank is listed twice in RANKS |
| Cards.CardValueOfRanks | src/App.jsx:26-32 | getCardValue(RANKS[k]) is k + 1 for every k |
| Cards.SuitIndexOfSuits | src/App.jsx:3 | the index of SUITS[k] is k |
| Cards.CardValuesIncrease | src/App.jsx:26-32 | values strictly increase along RANKS, from A = 1 to K = 13 (no ace-high) |
| Cards.RoundOutcome | src/App.jsx:77-85 | the bot wins exactly when its value is greater; the player wins exactly when the bot's is smaller; a tie happens exactly when the ranks are equal |
| Cards.Verdict | src/App.jsx:172 | Player Wins iff playerScore > botScore, Bot Wins iff <, a tie iff equal |
| Deck.PositionParts | src/App.jsx:9-10 | a card's deck position splits into its suit's index and its rank's place (suit-major) |
| Deck.PositionInjective | src/App.jsx:9-10 | different (suit, rank) pairs get different positions |
| Deck.CanonicalOrderUnique | src/App.jsx:7-15 | only one sequence has every card at its own position |
| Deck.CanonicalDeck | src/App.jsx:7-15 | the built deck has 52 cards |
| Deck.CanonicalDeckInOrder | src/App.jsx:7-15 | the card at index p of the built deck is the card whose position is p |
| Deck.CanonicalOrderAt | src/App.jsx:7-15 | index s * 13 + r holds the card with rank RANKS[r] and suit SUITS[s] |
| Deck.CanonicalDeckHoldsEveryCardOnce | src/App.jsx:7-15 | every (suit, rank) pair occurs exactly once, and no card is repeated |
| Deck.CreateDeck | src/App.jsx:7-15 | the nested push loops build exactly the canonical deck |
| Deck.NoDuplicatesCount | src/App.jsx:7-15 | in a duplicate-free sequence a value occurs once if present, else zero times |
| Deck.PermutationKeepsNoDuplicates | src/App.jsx:17-24 | a rearrangement of a duplicate-free deck is duplicate-free |
| Deck.ValidChoices | src/App.jsx:20 | the draws the shuffle accepts: one per position, with the draw for position i between 0 and i |
| Deck.Swap | src/App.jsx:21 | the destructuring swap exchanges the elements at i and j, keeps the length, and leaves every other element in place |
| Deck.FisherYatesFrom | src/App.jsx:19-22 | the swaps for positions i, i - 1, ..., 1, each with its draw, keep the length of the sequence |
| Deck.Shuffled | src/App.jsx:17-24 | shuffleDeck under the given draws, on a copy of the deck, keeps its length |
| Deck.SwapPermutes | src/App.jsx:21 | the destructuring swap keeps the same elements |
| Deck.FisherYatesFromPermutes | src/App.jsx:19-22 | the swaps for i, i - 1, ..., 1 permute the sequence |
| Deck.ShuffledPermutes | src/App.jsx:17-24 | for any draws, the shuffle is a permutation of its input |
| Deck.ShuffleDeck | src/App.jsx:17-24 | the loop on the copied array yields exactly the Fisher-Yates result for the draws, with the same length and the same cards; the caller's deck is a value and is unchanged |
| Deck.PlayerDeal | src/App.jsx:46 | the player's hand is deck[0..7) |
| Deck.BotDeal | src/App.jsx:47 | the bot's hand is deck[7..14) |
| Deck.DealDisjoint | src/App.jsx:46-47 | from a duplicate-free deck the two hands share no card, and together they are deck[0..14) |
| Deck.ShuffledCanonicalDeck | src/App.jsx:45 | any shuffle of the built deck has 52 cards, each exactly once |
| Deck.NewDeck | src/App.jsx:45 | shuffleDeck(createDeck()) is the shuffle of the canonical deck under the draws |
| Match.PileCardsAppend | src/App.jsx:66 | pushing an entry adds its card at the end of the pile's cards |
| Match.DealConserves | src/App.jsx:46-47 | after the deal the 14 dealt cards are distinct and are exactly the two hands, with an empty pile |
| Match.ShuffledDeal | src/App.jsx:44-47 | the deal from a shuffle gives two 7-card hands with no shared card, and it conserves the dealt cards |
| Match.ConservedDisjoint | src/App.jsx:46-47 | while cards are conserved, no card is in both hands or in a hand and on the pile |
| Match.PlayerMoveConserves | src/App.jsx:98-104 | moving the chosen card from the hand to the pile conserves the dealt cards |
| Match.BotMoveConserves | src/App.jsx:64-66 | moving the bot's front card to the pile conserves the dealt cards |
| Match.TopCard | src/App.jsx:69 | the compared card is absent exactly when the pile is empty, and otherwise is the pile's last card |
| Match.RemoveAt | src/App.jsx:98-102 | splice(index, 1) removes exactly the card at index: one card shorter, the cards before and after it kept in order, the same cards less that one |
| Match.Results | src/App.jsx:59-61 | the number of results with a given outcome is at most the length of the log |
| Match.ResultsAppend | src/App.jsx:59-61 | appending one message adds one to the count of its outcome if it is that round result, and nothing otherwise |
| Match.PlayerMoveKeepsInvariant | src/App.jsx:95-104 | on the player's turn, moving the card at index to the pile and logging it keeps Reachable and hands the turn to the bot; the logged results are unchanged |
| Match.BotMoveKeepsInvariant | src/App.jsx:63-92 | on the bot's turn, botPlay keeps Reachable and hands the turn back: the log gains exactly the round's result, each score still equals its side's logged wins, and the game is over exactly when the bot played its last card |
| Match.GameOverTally | src/App.jsx:77-89 | at game over the wins of both sides plus the logged ties are exactly 7, and the scores give the same verdict as the logged results |
| Match.MatchState.CanPlay | src/App.jsx:96 | the guard of playCard, the same condition that enables the hand's buttons at line 151: the player's turn, with the game running |
| Match.MatchState.CanPlayHasCards | src/App.jsx:96 | in a valid state, while the buttons are enabled the player has a card and the bot holds as many; at game over the buttons are disabled and both hands are empty |
| Match.MatchState.DisplayedVerdict | src/App.jsx:169-172 | the banner shows only when the game is over; it reads Player Wins, Bot Wins or a tie exactly as the final scores compare |
| Match.MatchState.constructor | src/App.jsx:35-42 | the useState defaults followed by the mount effect's initGame give a valid, playable first deal |
| Match.MatchState.InitGame | src/App.jsx:44-57 | from any state: the hands are the first and second 7 cards of the shuffled deck, with no shared card; the pile and the log are empty; both scores are 0; the game is running and it is the player's turn; Valid holds |
| Match.MatchState.AddToGameLog | src/App.jsx:59-61 | the log grows by exactly the message at its end |
| Match.MatchState.PlayCard | src/App.jsx:95-106 | outside the player's turn, or after game over, nothing changes. Otherwise: the card at index leaves the hand and the others keep their order; the card goes on the pile tagged as the player's; one log entry is added; the turn passes to the bot. Valid is kept |
| Match.MatchState.BotPlay | src/App.jsx:63-92 | the bot's front card leaves its hand for the pile and is logged. With an empty pile to compare: "no card" is logged, no score changes, the turn returns. Otherwise: the round result is logged; only the winning side's score grows, by exactly 1; the game ends iff the bot's hand is now empty; the turn returns |
| Match.MatchState.ScoreRound | src/App.jsx:77-85 | the comparison adds 1 to the winner's score, or nothing on a tie, and logs the result |
| Match.MatchState.PlayRound | src/App.jsx:95-108 | a round from a valid playable state keeps Valid and always compares against the player's own card. At most one score grows, by 1. The log gets exactly three entries in order. The match ends exactly when the bot held one card, which leaves both hands empty |

## Left out

- Rendering, CSS classes and the button wiring (src/App.jsx:115-183) are presentation. They are not modelled. Only the guard that disables the buttons is kept, as `CanPlay`.
- `Math.random` and the uniformity of the shuffle are only represented by `choices`, a sequence of draws with `0 <= j <= i`. The model proves the permutation property for every such sequence. It says nothing about the distribution.
- `setTimeout(botPlay, 1000)` and the mount `useEffect` are framework plumbing. The timer is a second transition, `BotPlay`, and `PlayRound` runs both steps. The mount effect is part of the constructor.
- React's batching of `setState` calls is not modelled. Each update is applied in the source's order, which leaves the same final state.
- Stale-closure reads are not modelled, and this changes every round. The timer runs the `botPlay` closure of the render in which the card was clicked, so its `centerPile` is always the pile as it was before the player's push. Round 1 therefore always takes the "no card" branch (src/App.jsx:71-75) and is never scored. Every later round compares the bot's card against the bot's own previous card. The player's choice never affects the score. The model instead compares against the card the player just put on the pile, which is the game's evident intent.
- Log messages are the datatype `LogEntry`, not formatted strings. Suits are the datatype `Suit`, not the symbols ♠ ♥ ♦ ♣.
- `getCardValue` returns `undefined` for a string that is not a rank. No such card can exist here, since cards are built only from `RANKS`.
- A tie only logs "Tie!". The 38 undealt cards are never used, so no hand is refilled. Game over looks at the bot's hand alone (`botHand.length <= 1`, src/App.jsx:87). No final result is logged. The model follows the code.
- Match.MatchState.PlayCard: requires `index < |playerHand|` and `playerHand[index] == card`, because the only caller is the button of the card at that index (src/App.jsx:150). `splice` with an index outside the hand is not modelled.
- Match.MatchState.BotPlay: its contract states the whole new state, but not that `Valid()` is kept. `botPlay` only ever runs from the timer that `playCard` sets. Keeping the invariant is therefore proved for the round, by `PlayRound`, and over values by `BotMoveKeepsInvariant` and `BotMoveConserves`.
