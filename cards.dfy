/** The deck engine of the War server: rank comparison of two cards and the
    deal of a shuffled 52-card deck into two 26-card hands. */
module Cards {

  const DECK_SIZE: nat := 52
  const HAND_SIZE: nat := 26
  const RANKS: nat := 13

  /** The rank of a card; the suit (card / 13) never takes part in a comparison.
      Python's `%` floors, which agrees with Dafny's for the positive modulus 13. */
  function Rank(card: int): int {
    card % RANKS
  }

  /** -1, 0 or 1 as the first card's rank is below, equal to or above the second's. */
  function CompareCards(card1: int, card2: int): (r: int)
    ensures -1 <= r <= 1
    ensures r == 1 <==> Rank(card1) > Rank(card2)
    ensures r == -1 <==> Rank(card1) < Rank(card2)
  {
    var r1, r2 := card1 % RANKS, card2 % RANKS;
    if r1 < r2 then -1 else if r1 > r2 then 1 else 0
  }

  lemma CompareAntisymmetric(card1: int, card2: int)
    ensures CompareCards(card1, card2) == -CompareCards(card2, card1)
  {
  }

  /** The comparison sees nothing of a card but its rank. */
  lemma CompareRankOnly(card1: int, card1': int, card2: int, card2': int)
    requires Rank(card1) == Rank(card1') && Rank(card2) == Rank(card2')
    ensures CompareCards(card1, card2) == CompareCards(card1', card2')
  {
  }

  /** Equal ranks tie, whatever the suits: card 5 against card 18 is a draw. */
  lemma CompareEqualRanks(card1: int, card2: int)
    ensures CompareCards(card1, card2) == 0 <==> Rank(card1) == Rank(card2)
    ensures CompareCards(card1, card1) == 0
    ensures CompareCards(5, 18) == 0
  {
  }

  /** `list(range(n))`. */
  function Range(n: nat): seq<int> {
    seq(n, i => i)
  }

  /** The cards of a deck: 0 to 51. */
  function AllCards(): set<int> {
    Elements(Range(DECK_SIZE))
  }

  /** A shuffle of `list(range(52))`: any permutation of it. */
  predicate IsShuffledDeck(deck: seq<int>) {
    multiset(deck) == multiset(Range(DECK_SIZE))
  }

  function Elements(s: seq<int>): set<int> {
    set x | x in s
  }

  predicate Distinct(s: seq<int>) {
    forall i, j :: 0 <= i < j < |s| ==> s[i] != s[j]
  }

  /** The first half of the shuffled deck goes to player 1, the second to player 2. */
  function DealCards(deck: seq<int>): (hands: (seq<int>, seq<int>))
    requires IsShuffledDeck(deck)
    ensures |hands.0| == HAND_SIZE && |hands.1| == HAND_SIZE
    ensures forall i :: 0 <= i < HAND_SIZE ==> 0 <= hands.0[i] < DECK_SIZE
    ensures forall i :: 0 <= i < HAND_SIZE ==> 0 <= hands.1[i] < DECK_SIZE
  {
    DeckFacts(deck);
    (deck[..HAND_SIZE], deck[HAND_SIZE..])
  }

  /** Every card occurs exactly once in `list(range(n))`. */
  lemma {:induction false} RangeCount(n: nat, x: int)
    ensures multiset(Range(n))[x] == if 0 <= x < n then 1 else 0
  {
    if n > 0 {
      RangeCount(n - 1, x);
      assert Range(n) == Range(n - 1) + [n - 1];
    } else {
      assert Range(n) == [];
    }
  }

  /** A shuffled deck has 52 cards, each of them in 0..51 and each once. */
  lemma DeckFacts(deck: seq<int>)
    requires IsShuffledDeck(deck)
    ensures |deck| == DECK_SIZE
    ensures forall x :: x in deck <==> 0 <= x < DECK_SIZE
    ensures forall i :: 0 <= i < |deck| ==> 0 <= deck[i] < DECK_SIZE
    ensures forall x :: multiset(deck)[x] <= 1
  {
    assert |multiset(deck)| == |multiset(Range(DECK_SIZE))| == DECK_SIZE;
    forall x
      ensures (x in deck <==> 0 <= x < DECK_SIZE) && multiset(deck)[x] <= 1
    {
      RangeCount(DECK_SIZE, x);
      assert x in deck <==> x in multiset(deck);
    }
    forall i | 0 <= i < |deck|
      ensures 0 <= deck[i] < DECK_SIZE
    {
      assert deck[i] in deck;
    }
  }

  /** A value at two positions of a sequence occurs at least twice in it. */
  lemma TwiceCounted(s: seq<int>, i: nat, j: nat)
    requires i < j < |s|
    ensures s[i] == s[j] ==> multiset(s)[s[i]] >= 2
  {
    assert s == s[..j] + s[j..];
    assert s[i] in multiset(s[..j]);
    assert s[j] in multiset(s[j..]);
    assert multiset(s) == multiset(s[..j]) + multiset(s[j..]);
  }

  /** A sequence without repeats has as many elements as positions. */
  lemma {:induction false} DistinctElements(s: seq<int>)
    requires Distinct(s)
    ensures |Elements(s)| == |s|
  {
    if s != [] {
      var init := s[..|s| - 1];
      assert Distinct(init);
      DistinctElements(init);
      assert Elements(s) == Elements(init) + {s[|s| - 1]};
      assert s[|s| - 1] !in Elements(init);
    }
  }

  /** A part of a deck in which no card occurs twice has no repeats. */
  lemma PartDistinct(part: seq<int>, whole: multiset<int>)
    requires multiset(part) <= whole
    requires forall x :: whole[x] <= 1
    ensures Distinct(part)
  {
    forall i, j | 0 <= i < j < |part|
      ensures part[i] != part[j]
    {
      TwiceCounted(part, i, j);
      assert multiset(part)[part[i]] <= whole[part[i]];
    }
  }

  /** The deal partitions the deck: two disjoint hands of 26 distinct cards
      whose union is exactly the 52 cards 0..51. */
  lemma DealPartitionsDeck(deck: seq<int>)
    requires IsShuffledDeck(deck)
    ensures var (hand1, hand2) := DealCards(deck);
      && Distinct(hand1) && Distinct(hand2)
      && |Elements(hand1)| == HAND_SIZE && |Elements(hand2)| == HAND_SIZE
      && Elements(hand1) !! Elements(hand2)
      && Elements(hand1) + Elements(hand2) == AllCards()
  {
    DeckFacts(deck);
    var (hand1, hand2) := DealCards(deck);
    assert deck == hand1 + hand2;
    assert multiset(deck) == multiset(hand1) + multiset(hand2);
    PartDistinct(hand1, multiset(deck));
    PartDistinct(hand2, multiset(deck));
    DistinctElements(hand1);
    DistinctElements(hand2);
    forall x
      ensures !(x in Elements(hand1) && x in Elements(hand2))
    {
      assert multiset(hand1)[x] + multiset(hand2)[x] <= 1;
      assert x in hand1 <==> x in multiset(hand1);
      assert x in hand2 <==> x in multiset(hand2);
    }
    forall x
      ensures x in Elements(hand1) + Elements(hand2) <==> x in AllCards()
    {
      assert x in deck <==> x in hand1 || x in hand2;
      assert x in AllCards() <==> 0 <= x < DECK_SIZE by {
        if 0 <= x < DECK_SIZE { assert Range(DECK_SIZE)[x] == x; }
      }
    }
  }
}
