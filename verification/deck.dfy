/** The deck (PokerLib/Deck.cs): a list of cards with top-card draw,
    put-back at the bottom and a Fisher–Yates shuffle. */
module Decks {
  import opened Results
  import opened Cards

  /** The most cards a deck may hold. */
  const FullSize: nat := 52

  /** The suits and ranks in enum order, as the constructor visits them. */
  const AllSuites: seq<Suite> := [Hearts, Spades, Clubs, Diamonds]
  const AllRanks: seq<Rank> := [2, 3, 4, 5, 6, 7, 8, 9, 10, Jack, Queen, King, Ace]

  datatype Deck = Deck(cards: seq<Card>)

  /** `GetTopCard` on an empty deck, `PutBackCard` on a full one. */
  datatype DeckError = EmptyDeck | FullDeck

  /** The card a fresh deck holds at position `i`: suit-major order. */
  function FreshCardAt(i: nat): Card
    requires i < FullSize
  {
    Card(AllSuites[i / 13], AllRanks[i % 13])
  }

  function SuiteIndex(s: Suite): (k: nat)
    ensures k < 4 && AllSuites[k] == s
  {
    match s
    case Hearts => 0
    case Spades => 1
    case Clubs => 2
    case Diamonds => 3
  }

  lemma FreshPosition(s: nat, r: nat)
    requires s < 4 && r < 13
    ensures 13 * s + r < FullSize
    ensures FreshCardAt(13 * s + r) == Card(AllSuites[s], AllRanks[r])
  {
    assert (13 * s + r) / 13 == s;
    assert (13 * s + r) % 13 == r;
  }

  /** Every card sits at exactly one position of a fresh deck. */
  lemma FreshCardsDistinct(i: nat, j: nat)
    requires i < j < FullSize
    ensures FreshCardAt(i) != FreshCardAt(j)
  {
    if i / 13 == j / 13 {
      assert i % 13 != j % 13;
      assert AllRanks[i % 13] != AllRanks[j % 13];
    } else {
      assert AllSuites[i / 13] != AllSuites[j / 13];
    }
  }

  lemma FreshCardsComplete(c: Card)
    ensures FreshCardAt(13 * SuiteIndex(c.suite) + (c.rank as int - 2)) == c
  {
    FreshPosition(SuiteIndex(c.suite), c.rank as int - 2);
  }

  /** `Deck()`: one card for every (suit, rank) pair, suit by suit. */
  method NewDeck() returns (d: Deck)
    ensures |d.cards| == FullSize
    ensures forall i :: 0 <= i < |d.cards| ==> d.cards[i] == Card(AllSuites[i / 13], AllRanks[i % 13])
    ensures forall i, j :: 0 <= i < j < |d.cards| ==> d.cards[i] != d.cards[j]
    ensures forall c: Card :: c in d.cards
  {
    var cards: seq<Card> := [];
    var s := 0;
    while s < |AllSuites|
      invariant 0 <= s <= |AllSuites|
      invariant |cards| == 13 * s
      invariant forall i :: 0 <= i < |cards| ==> cards[i] == FreshCardAt(i)
    {
      var r := 0;
      while r < |AllRanks|
        invariant 0 <= r <= |AllRanks|
        invariant |cards| == 13 * s + r
        invariant forall i :: 0 <= i < |cards| ==> cards[i] == FreshCardAt(i)
      {
        FreshPosition(s, r);
        cards := cards + [Card(AllSuites[s], AllRanks[r])];
        r := r + 1;
      }
      s := s + 1;
    }
    d := Deck(cards);
    FreshDeckIsComplete(cards);
  }

  /** The 52 cards in fresh order are pairwise different and include
      every card. */
  lemma FreshDeckIsComplete(cards: seq<Card>)
    requires |cards| == FullSize
    requires forall i :: 0 <= i < |cards| ==> cards[i] == FreshCardAt(i)
    ensures forall i, j :: 0 <= i < j < |cards| ==> cards[i] != cards[j]
    ensures forall c: Card :: c in cards
  {
    forall i, j | 0 <= i < j < |cards|
      ensures cards[i] != cards[j]
    {
      FreshCardsDistinct(i, j);
    }
    forall c: Card
      ensures c in cards
    {
      FreshCardsComplete(c);
      assert cards[13 * SuiteIndex(c.suite) + (c.rank as int - 2)] == c;
    }
  }

  /** Position of the first occurrence of `c` in `s`. */
  function FirstIndex(s: seq<Card>, c: Card): (i: nat)
    requires c in s
    ensures i < |s| && s[i] == c && c !in s[..i]
  {
    if s[0] == c then 0
    else
      var j := FirstIndex(s[1..], c);
      assert s[..j + 1] == [s[0]] + s[1..][..j];
      j + 1
  }

  /** `List<Card>.Remove`: deletes the first card that `Equals` the
      argument and leaves the list unchanged when there is none. */
  function RemoveFirst(s: seq<Card>, c: Card): (r: seq<Card>)
    ensures c !in s ==> r == s
    ensures c in s ==> r == s[..FirstIndex(s, c)] + s[FirstIndex(s, c) + 1..]
  {
    if |s| == 0 then s
    else if s[0] == c then s[1..]
    else
      var rest := RemoveFirst(s[1..], c);
      if c in s[1..] then
        var j := FirstIndex(s[1..], c);
        assert FirstIndex(s, c) == j + 1;
        assert rest == s[1..][..j] + s[1..][j + 1..];
        assert s[..j + 1] == [s[0]] + s[1..][..j];
        assert s[j + 2..] == s[1..][j + 1..];
        [s[0]] + rest
      else
        assert s == [s[0]] + s[1..];
        [s[0]] + rest
  }

  /** `GetTopCard`: fails on an empty deck; otherwise hands out the first
      card and removes it, the rest keeping their order. */
  function GetTopCard(d: Deck): (r: Result<(Card, Deck), DeckError>)
    ensures r.Err? <==> |d.cards| == 0
    ensures r.Err? ==> r.error == EmptyDeck
    ensures r.Ok? ==> r.value.0 == d.cards[0] && r.value.1.cards == d.cards[1..]
    ensures r.Ok? ==> |r.value.1.cards| == |d.cards| - 1
  {
    if |d.cards| == 0 then Err(EmptyDeck)
    else
      var top := d.cards[0];
      Ok((top, Deck(RemoveFirst(d.cards, top))))
  }

  /** `PutBackCard`: fails when the deck already holds 52 or more cards;
      otherwise the card goes to the bottom and nothing else moves. */
  function PutBackCard(d: Deck, c: Card): (r: Result<Deck, DeckError>)
    ensures r.Err? <==> |d.cards| >= FullSize
    ensures r.Err? ==> r.error == FullDeck
    ensures r.Ok? ==> |r.value.cards| == |d.cards| + 1
    ensures r.Ok? ==> r.value.cards[..|d.cards|] == d.cards && r.value.cards[|d.cards|] == c
  {
    if |d.cards| >= FullSize then Err(FullDeck)
    else Ok(Deck(d.cards + [c]))
  }

  /** Drawing and putting back keep a deck within 52 cards. */
  lemma CountStaysBounded(d: Deck, c: Card)
    requires |d.cards| <= FullSize
    ensures GetTopCard(d).Ok? ==> |GetTopCard(d).value.1.cards| <= FullSize
    ensures PutBackCard(d, c).Ok? ==> |PutBackCard(d, c).value.cards| <= FullSize
  {
  }

  /** Drawing the top card and putting it back moves it to the bottom:
      the deck keeps its cards and its size. */
  lemma DrawThenPutBackRotates(d: Deck)
    requires 0 < |d.cards| <= FullSize
    ensures GetTopCard(d).Ok?
    ensures var (top, rest) := GetTopCard(d).value;
      && PutBackCard(rest, top).Ok?
      && PutBackCard(rest, top).value.cards == d.cards[1..] + [d.cards[0]]
      && multiset(PutBackCard(rest, top).value.cards) == multiset(d.cards)
  {
    var (top, rest) := GetTopCard(d).value;
    var back := PutBackCard(rest, top).value.cards;
    assert back == d.cards[1..] + [d.cards[0]];
    assert d.cards == [d.cards[0]] + d.cards[1..];
  }

  /** The sequence with positions `i` and `j` exchanged. */
  function Swap(s: seq<Card>, i: nat, j: nat): (t: seq<Card>)
    requires i < |s| && j < |s|
    ensures |t| == |s|
    ensures t[i] == s[j] && t[j] == s[i]
    ensures forall k :: 0 <= k < |s| && k != i && k != j ==> t[k] == s[k]
    ensures multiset(t) == multiset(s)
  {
    var t := s[i := s[j]][j := s[i]];
    assert multiset(s[i := s[j]]) == multiset(s) - multiset{s[i]} + multiset{s[j]};
    t
  }

  /** `Shuffle`: for i from the last position down to 1, swap position i
      with a random position in 0..i. `picks[i]` is the index drawn when
      the loop is at position i. */
  method Shuffle(d: Deck, picks: seq<int>) returns (s: Deck)
    requires |picks| == |d.cards|
    requires forall i :: 0 < i < |picks| ==> 0 <= picks[i] <= i
    ensures |s.cards| == |d.cards|
    ensures multiset(s.cards) == multiset(d.cards)
    ensures |d.cards| > 1 ==> s.cards[|d.cards| - 1] == d.cards[picks[|d.cards| - 1]]
    ensures (forall i :: 0 < i < |picks| ==> picks[i] == i) ==> s == d
  {
    var cards := d.cards;
    var n := |cards|;
    var i := n - 1;
    ghost var identity := forall j :: 0 < j < |picks| ==> picks[j] == j;
    while i > 0
      invariant -1 <= i <= n - 1
      invariant |cards| == n
      invariant multiset(cards) == multiset(d.cards)
      invariant i == n - 1 ==> cards == d.cards
      invariant n > 1 && i < n - 1 ==> cards[n - 1] == d.cards[picks[n - 1]]
      invariant identity ==> cards == d.cards
    {
      cards := Swap(cards, i, picks[i]);
      i := i - 1;
    }
    s := Deck(cards);
  }
}
