/** The deck engine: building the 52-card deck in suit-major order
    (createDeck), the Fisher-Yates shuffle over a copy of the deck
    (shuffleDeck) with the random draws supplied by the caller, and the
    split of a shuffled deck into the two 7-card hands. */
module Deck {
  import opened Cards

  /** Number of cards in each hand after the deal. */
  const HAND_SIZE: nat := 7

  /** Where a card sits in a freshly built deck: all Spades first, then
      Hearts, Diamonds and Clubs, each suit in the order of RANKS. */
  function Position(c: Card): (p: nat)
    ensures p < |SUITS| * |RANKS|
  {
    SuitIndex(c.suit) * |RANKS| + CardValue(c.rank) - 1
  }

  /** A position splits back into the suit's index and the rank's place. */
  lemma PositionParts(c: Card)
    ensures Position(c) / |RANKS| == SuitIndex(c.suit)
    ensures Position(c) % |RANKS| == CardValue(c.rank) - 1
  {
  }

  /** Different cards have different positions. */
  lemma PositionInjective(c: Card, d: Card)
    requires Position(c) == Position(d)
    ensures c == d
  {
    PositionParts(c);
    PositionParts(d);
    RankAtValue(c.rank);
    RankAtValue(d.rank);
    SuitAtIndex(c.suit);
    SuitAtIndex(d.suit);
  }

  /** The deck as createDeck leaves it: 52 cards, the i-th card being the
      one whose position is i. */
  ghost predicate InCanonicalOrder(deck: seq<Card>)
  {
    |deck| == |SUITS| * |RANKS| &&
    forall i :: 0 <= i < |deck| ==> Position(deck[i]) == i
  }

  ghost predicate NoDuplicates<T>(s: seq<T>)
  {
    forall i, j :: 0 <= i < j < |s| ==> s[i] != s[j]
  }

  /** The canonical order fixes the deck completely. */
  lemma {:induction false} CanonicalOrderUnique(d: seq<Card>, e: seq<Card>)
    requires InCanonicalOrder(d) && InCanonicalOrder(e)
    ensures d == e
  {
    forall i | 0 <= i < |d|
      ensures d[i] == e[i]
    {
      PositionInjective(d[i], e[i]);
    }
  }

  /** In the canonical deck the card of suit SUITS[s] and rank RANKS[r]
      is at index s * 13 + r: suit-major, then rank. */
  lemma CanonicalOrderAt(deck: seq<Card>, s: nat, r: nat)
    requires InCanonicalOrder(deck)
    requires s < |SUITS| && r < |RANKS|
    ensures s * |RANKS| + r < |deck|
    ensures deck[s * |RANKS| + r] == Card(RANKS[r], SUITS[s])
  {
    CardValueOfRanks(r);
    SuitIndexOfSuits(s);
    var c := Card(RANKS[r], SUITS[s]);
    assert Position(c) == s * |RANKS| + r;
    PositionInjective(deck[Position(c)], c);
  }

  /** Every card appears in the canonical deck exactly once. */
  lemma CanonicalDeckHoldsEveryCardOnce(deck: seq<Card>)
    requires InCanonicalOrder(deck)
    ensures NoDuplicates(deck)
    ensures forall c: Card :: multiset(deck)[c] == 1
  {
    forall i, j | 0 <= i < j < |deck|
      ensures deck[i] != deck[j]
    {
      assert Position(deck[i]) == i && Position(deck[j]) == j;
    }
    forall c: Card
      ensures multiset(deck)[c] == 1
    {
      PositionInjective(deck[Position(c)], c);
      assert c in deck;
      NoDuplicatesCount(deck, c);
    }
  }

  /** A card occurs once in a duplicate-free sequence that holds it. */
  lemma {:induction false} NoDuplicatesCount<T>(s: seq<T>, x: T)
    requires NoDuplicates(s)
    ensures multiset(s)[x] == if x in s then 1 else 0
  {
    if s != [] {
      assert s == [s[0]] + s[1..];
      assert NoDuplicates(s[1..]) by {
        forall i, j | 0 <= i < j < |s[1..]|
          ensures s[1..][i] != s[1..][j]
        {
          assert s[1..][i] == s[i + 1] && s[1..][j] == s[j + 1];
        }
      }
      NoDuplicatesCount(s[1..], x);
      if x == s[0] {
        assert x !in s[1..] by {
          forall k | 0 <= k < |s[1..]|
            ensures s[1..][k] != x
          {
            assert s[1..][k] == s[k + 1];
          }
        }
      }
    }
  }

  /** A value at two indices of a sequence occurs at least twice in it. */
  lemma RepeatedValueCount<T>(s: seq<T>, i: nat, j: nat)
    requires i < j < |s| && s[i] == s[j]
    ensures multiset(s)[s[i]] >= 2
  {
    assert s == s[..j] + s[j..];
    assert s[i] in s[..j];
    assert s[j] in s[j..];
    assert multiset(s) == multiset(s[..j]) + multiset(s[j..]);
  }

  /** A rearrangement of a duplicate-free sequence is duplicate-free. */
  lemma PermutationKeepsNoDuplicates<T>(s: seq<T>, t: seq<T>)
    requires NoDuplicates(s) && multiset(s) == multiset(t)
    ensures NoDuplicates(t)
  {
    forall i, j | 0 <= i < j < |t|
      ensures t[i] != t[j]
    {
      if t[i] == t[j] {
        RepeatedValueCount(t, i, j);
        NoDuplicatesCount(s, t[i]);
      }
    }
  }

  /** The deck createDeck builds, listed position by position. */
  function CanonicalDeck(): (deck: seq<Card>)
    ensures |deck| == |SUITS| * |RANKS|
  {
    seq(|SUITS| * |RANKS|, p requires 0 <= p < |SUITS| * |RANKS| =>
        Card(RANKS[p % |RANKS|], SUITS[p / |RANKS|]))
  }

  /** CanonicalDeck lists the cards in the canonical order. */
  lemma CanonicalDeckInOrder()
    ensures InCanonicalOrder(CanonicalDeck())
  {
    var d := CanonicalDeck();
    forall p | 0 <= p < |d|
      ensures Position(d[p]) == p
    {
      CardValueOfRanks(p % |RANKS|);
      SuitIndexOfSuits(p / |RANKS|);
    }
  }

  /** createDeck: for each suit, for each rank, push the card. */
  method CreateDeck() returns (deck: seq<Card>)
    ensures InCanonicalOrder(deck)
    ensures deck == CanonicalDeck()
  {
    deck := [];
    var s := 0;
    while s < |SUITS|
      invariant 0 <= s <= |SUITS|
      invariant |deck| == s * |RANKS|
      invariant forall i :: 0 <= i < |deck| ==> Position(deck[i]) == i
    {
      var r := 0;
      while r < |RANKS|
        invariant 0 <= r <= |RANKS|
        invariant |deck| == s * |RANKS| + r
        invariant forall i :: 0 <= i < |deck| ==> Position(deck[i]) == i
      {
        CardValueOfRanks(r);
        SuitIndexOfSuits(s);
        deck := deck + [Card(RANKS[r], SUITS[s])];
        r := r + 1;
      }
      s := s + 1;
    }
    CanonicalDeckInOrder();
    CanonicalOrderUnique(deck, CanonicalDeck());
  }

  /** The random draws of one shuffle of n cards: choices[i] is the index j
      drawn when position i is filled, with 0 <= j <= i (choices[0] is never
      drawn, as the loop stops before i = 0). */
  predicate ValidChoices(choices: seq<nat>, n: nat)
  {
    |choices| == n && forall i :: 0 < i < n ==> choices[i] <= i
  }

  /** Exchanging the elements at i and j. */
  function Swap<T>(s: seq<T>, i: nat, j: nat): (r: seq<T>)
    requires i < |s| && j < |s|
    ensures |r| == |s| && r[i] == s[j] && r[j] == s[i]
    ensures forall k :: 0 <= k < |s| && k != i && k != j ==> r[k] == s[k]
  {
    s[i := s[j]][j := s[i]]
  }

  /** An exchange keeps the same elements. */
  lemma SwapPermutes<T>(s: seq<T>, i: nat, j: nat)
    requires i < |s| && j < |s|
    ensures multiset(Swap(s, i, j)) == multiset(s)
  {
  }

  /** The Fisher-Yates steps i, i - 1, ..., 1 applied to s. */
  ghost function FisherYatesFrom<T>(s: seq<T>, choices: seq<nat>, i: nat): (r: seq<T>)
    requires i < |s| && ValidChoices(choices, |s|)
    ensures |r| == |s|
    decreases i
  {
    if i == 0 then s
    else FisherYatesFrom(Swap(s, i, choices[i]), choices, i - 1)
  }

  /** The whole shuffle of deck under the given draws. */
  ghost function Shuffled<T>(deck: seq<T>, choices: seq<nat>): (r: seq<T>)
    requires ValidChoices(choices, |deck|)
    ensures |r| == |deck|
  {
    if |deck| == 0 then deck else FisherYatesFrom(deck, choices, |deck| - 1)
  }

  lemma {:induction false} FisherYatesFromPermutes<T>(s: seq<T>, choices: seq<nat>, i: nat)
    requires i < |s| && ValidChoices(choices, |s|)
    ensures multiset(FisherYatesFrom(s, choices, i)) == multiset(s)
    decreases i
  {
    if i > 0 {
      var t := Swap(s, i, choices[i]);
      assert FisherYatesFrom(s, choices, i) == FisherYatesFrom(t, choices, i - 1);
      FisherYatesFromPermutes(t, choices, i - 1);
      SwapPermutes(s, i, choices[i]);
    }
  }

  /** Whatever the draws, the shuffle is a permutation of its input. */
  lemma ShuffledPermutes<T>(deck: seq<T>, choices: seq<nat>)
    requires ValidChoices(choices, |deck|)
    ensures multiset(Shuffled(deck, choices)) == multiset(deck)
  {
    if deck != [] {
      FisherYatesFromPermutes(deck, choices, |deck| - 1);
    }
  }

  /** shuffleDeck: copy the deck, then swap position i with a drawn
      j <= i for i from the last index down to 1. The caller's deck is a
      value and stays as it was. */
  method ShuffleDeck<T>(deck: seq<T>, choices: seq<nat>) returns (shuffled: seq<T>)
    requires ValidChoices(choices, |deck|)
    ensures shuffled == Shuffled(deck, choices)
    ensures |shuffled| == |deck| && multiset(shuffled) == multiset(deck)
  {
    var a := new T[|deck|](k requires 0 <= k < |deck| => deck[k]);
    assert a[..] == deck;
    var i := |deck| - 1;
    while i > 0
      invariant a.Length == |deck|
      invariant -1 <= i < |deck| && (i == -1 ==> deck == [])
      invariant 0 <= i ==> FisherYatesFrom(a[..], choices, i) == Shuffled(deck, choices)
    {
      var j := choices[i];
      ghost var before := a[..];
      assert FisherYatesFrom(before, choices, i) == FisherYatesFrom(Swap(before, i, j), choices, i - 1);
      var t := a[i];
      a[i] := a[j];
      a[j] := t;
      assert a[..] == Swap(before, i, j);
      i := i - 1;
    }
    shuffled := a[..];
    ShuffledPermutes(deck, choices);
  }

  /** The player's hand of a deal: deck.slice(0, 7). */
  function PlayerDeal(deck: seq<Card>): (hand: seq<Card>)
    requires |deck| >= 2 * HAND_SIZE
    ensures |hand| == HAND_SIZE && forall i :: 0 <= i < HAND_SIZE ==> hand[i] == deck[i]
  {
    deck[..HAND_SIZE]
  }

  /** The bot's hand of a deal: deck.slice(7, 14). */
  function BotDeal(deck: seq<Card>): (hand: seq<Card>)
    requires |deck| >= 2 * HAND_SIZE
    ensures |hand| == HAND_SIZE && forall i :: 0 <= i < HAND_SIZE ==> hand[i] == deck[HAND_SIZE + i]
  {
    deck[HAND_SIZE..2 * HAND_SIZE]
  }

  /** Dealing from a duplicate-free deck gives two hands that share no
      card, and together they are the first 14 cards. */
  lemma DealDisjoint(deck: seq<Card>)
    requires |deck| >= 2 * HAND_SIZE && NoDuplicates(deck)
    ensures forall c :: !(c in PlayerDeal(deck) && c in BotDeal(deck))
    ensures PlayerDeal(deck) + BotDeal(deck) == deck[..2 * HAND_SIZE]
  {
    forall i, j | 0 <= i < HAND_SIZE && 0 <= j < HAND_SIZE
      ensures PlayerDeal(deck)[i] != BotDeal(deck)[j]
    {
      assert PlayerDeal(deck)[i] == deck[i] && BotDeal(deck)[j] == deck[HAND_SIZE + j];
    }
  }

  /** Any shuffle of the canonical deck holds all 52 cards once each, so
      the two hands dealt from it never share a card. */
  lemma ShuffledCanonicalDeck(choices: seq<nat>)
    requires ValidChoices(choices, |SUITS| * |RANKS|)
    ensures |Shuffled(CanonicalDeck(), choices)| == |SUITS| * |RANKS|
    ensures forall c: Card :: multiset(Shuffled(CanonicalDeck(), choices))[c] == 1
    ensures NoDuplicates(Shuffled(CanonicalDeck(), choices))
  {
    var deck := CanonicalDeck();
    CanonicalDeckInOrder();
    CanonicalDeckHoldsEveryCardOnce(deck);
    ShuffledPermutes(deck, choices);
    PermutationKeepsNoDuplicates(deck, Shuffled(deck, choices));
  }

  /** shuffleDeck(createDeck()): a fresh deck in shuffled order. */
  method NewDeck(choices: seq<nat>) returns (deck: seq<Card>)
    requires ValidChoices(choices, |SUITS| * |RANKS|)
    ensures deck == Shuffled(CanonicalDeck(), choices)
  {
    var ordered := CreateDeck();
    deck := ShuffleDeck(ordered, choices);
  }
}
