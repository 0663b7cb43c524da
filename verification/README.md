# Five-card-draw poker: winner resolution, deck and cards

This project models in Dafny the core of a small C# five-card-draw poker
library and proves properties of it:

- **Winner resolution** (`Game.CompareHands` with its helpers
  `HighestRankCards`, `BestDuplicate`, `BestThreeDuplicate` and
  `BestFourDuplicate`, plus the inline two-pairs loop). The seats holding
  the strongest hand type become contenders. The chain for that hand type
  narrows them. Then the wins are credited and `Winner` or `Draw` is
  reported.
- **The deck** (`Deck`): building the 52 cards, drawing the top card,
  putting a card back at the bottom, and the Fisher–Yates shuffle.
- **Cards** (`Card`): construction, the tuple conversion, `Equals`, `==`,
  `!=` and the text rendering ("♥A", "♣10").

Modules follow the source's classes:

- `Results`: the `Result` and `Option` types.
- `Cards`: PokerLib/Card.cs.
- `Decks`: PokerLib/Deck.cs.
- `Hands`: the hand types and the evaluated-hand record that the hand
  evaluator produces; the evaluator itself is outside this model.
- `Narrowing`: the tie-break helpers of PokerLib/Game.cs.
- `Game`: `CompareHands`.

Modelling choices:

- **Exceptions are values.** The source can throw in several places:
  `.First()` on an empty rank list, `DuplicateRank[i]` out of range, `Max()`
  over no players, drawing from an empty deck, and putting a card into a
  full one. The model returns each of these as a `Result` error, not as a
  precondition, so the error paths are part of the contracts.
- **Seats, not player objects.** A player is a seat index into the table,
  and a list of players is a `seq<nat>` of seat numbers in seating order.
  A `Seat` holds the name, the win counter and the evaluated hand.
- **Notifications are returned.** The `Winner` and `Draw` events become a
  returned list of `Outcome`s, in the order they would be raised.
- **One general cascade.** Each literal helper is proved equal to a single
  cascade over a list of keys (`Narrowing.NarrowIsCascade`). The cascade
  keeps exactly the contenders whose key vectors are lexicographically
  greatest (`Narrowing.CascadeKeepsLeaders`).
- **The shuffle's randomness is an input.** `System.Random.Next(0, i + 1)`
  becomes a sequence `picks` with `0 <= picks[i] <= i`.
- **Where a plain reading of the rules differs from the code, the model
  follows the code:**
  - `BestFourDuplicate` (PokerLib/Game.cs:190-199) falls back to
    `HighestRankCards` like the other helpers. It does not stop at the
    four-of-a-kind rank.
  - ThreeOfAKind and FullHouse ties go through `BestThreeDuplicate`, which
    already compares the five ranks. `BestDuplicate` follows only if a tie
    remains (PokerLib/Game.cs:127-134).
  - A ThreeOfAKind tie that survives `BestThreeDuplicate` then calls
    `DuplicateRank.First()` on an empty list and throws
    (`Game.ConsistentTableFaultsOnlyOnTrips`). Such a tie needs six cards
    of one rank, so it cannot arise from a single 52-card deck.
  - The per-seat loop at PokerLib/Game.cs:143-154 and the extra royal flush
    `Draw` at 139-142 are modelled as written. See "## Findings".

## Model

| member | source | states |
|---|---|---|
| Cards.NewCard | PokerLib/Card.cs:11-15 | the constructor stores suit and rank unchanged |
| Cards.FromTuple | PokerLib/Card.cs:17-18 | the implicit conversion from a (suit, rank) tuple stores both unchanged |
| Cards.Equals | PokerLib/Card.cs:38-50 | `Equals` holds exactly when the argument is a card with the same suit and rank; it is false for null and for other types |
| Cards.Eq | PokerLib/Card.cs:52-67 | `==` is true for two nulls, false when exactly one side is null, and otherwise agrees with `Equals` (together: true exactly when both sides denote the same card or both are null) |
| Cards.Neq | PokerLib/Card.cs:68-71 | `!=` is exactly the negation of `==` |
| Cards.EqualsIsEquivalence | PokerLib/Card.cs:38-50 | `Equals` between cards is reflexive, symmetric and transitive, and rejects null and other types |
| Cards.Decimal | PokerLib/Card.cs:34 | the rendering of a number is a non-empty string of decimal digits with no leading zero, a single digit exactly for numbers below 10 |
| Cards.DecimalRoundTrip | PokerLib/Card.cs:34 | reading back the decimal rendering of a number gives that number |
| Cards.ToString | PokerLib/Card.cs:20-35 | `ToString()` is the suit symbol followed by the rank text, two or three characters long; `ToStringShape`, `ToStringParses` and `ToStringInjective` state what the text is and that it identifies the card |
| Cards.ToStringShape | PokerLib/Card.cs:20-35 | the text starts with ♥, ♠ or ♣ for those suits and ♦ otherwise; the rank part is A, K, Q or J for face ranks and otherwise the decimal value of the rank without a leading zero (one digit for 2-9, "10" for ten) |
| Cards.ToStringParses | PokerLib/Card.cs:20-35 | the rendering can be parsed back into the same card |
| Cards.ToStringInjective | PokerLib/Card.cs:20-50 | two cards render to the same text exactly when they are `Equals` |
| Cards.ToStringExamples | PokerLib/Card.cs:20-35 | "♣10", "♥4", "♠A" and "♦Q" are the renderings of those cards |
| Decks.FreshCardsDistinct | PokerLib/Deck.cs:15-21 | different positions of a new deck hold different cards |
| Decks.NewDeck | PokerLib/Deck.cs:13-22 | a new deck holds 52 cards, suit by suit and rank by rank in enum order, with no duplicates and every (suit, rank) pair present |
| Decks.FirstIndex | PokerLib/Deck.cs:34 | finds the first position holding a card, which `List.Remove` deletes |
| Decks.RemoveFirst | PokerLib/Deck.cs:34 | `List.Remove` deletes the first occurrence of the card and keeps the rest in order; without an occurrence the list is unchanged |
| Decks.GetTopCard | PokerLib/Deck.cs:24-37 | drawing fails exactly when the deck is empty; otherwise it returns the first card and leaves the rest in order, one card fewer |
| Decks.PutBackCard | PokerLib/Deck.cs:39-47 | putting back fails exactly when the deck holds 52 or more cards; otherwise the card goes to the bottom and nothing else moves |
| Decks.CountStaysBounded | PokerLib/Deck.cs:24-47 | a deck of at most 52 cards stays within 52 under drawing and putting back |
| Decks.DrawThenPutBackRotates | PokerLib/Deck.cs:24-47 | drawing the top card and putting it back moves it to the bottom and keeps the same cards |
| Decks.Swap | PokerLib/Deck.cs:57-59 | the three-assignment swap exchanges two positions, leaves the others alone and keeps the multiset of cards |
| Decks.Shuffle | PokerLib/Deck.cs:49-61 | for any index choices with 0 ≤ r ≤ i, shuffling keeps the count and the multiset of cards; the last position ends up with the card first chosen for it; identity choices change nothing |
| Narrowing.MaxKey | PokerLib/Game.cs:162 | `Select(...).Max()` bounds the key of every player and is attained by one of them |
| Narrowing.KeepIf | PokerLib/Game.cs:163 | `Where(...)` keeps exactly the players whose key equals the given value, in their order (for the increasing seat lists the game passes, by `KeepIfOrdered`) |
| Narrowing.KeepBest | PokerLib/Game.cs:171-172 | one narrowing step fails on no players or on a player missing the key; otherwise it keeps exactly the players holding the highest key, a non-empty ordered subset |
| Narrowing.Cascade | PokerLib/Game.cs:158-167 | a chain of narrowing steps returns an ordered subset of its input, non-empty for non-empty input; it fails only on no players or on a missing key of its chain |
| Narrowing.HighestRankCards | PokerLib/Game.cs:158-167 | `HighestRankCards` returns a subset of its input in input order, non-empty when the input is |
| Narrowing.BestDuplicate | PokerLib/Game.cs:169-178 | `BestDuplicate` returns an ordered subset of its input, non-empty when the input is |
| Narrowing.BestThreeDuplicate | PokerLib/Game.cs:180-189 | `BestThreeDuplicate` returns an ordered subset of its input, non-empty when the input is |
| Narrowing.BestFourDuplicate | PokerLib/Game.cs:190-199 | `BestFourDuplicate` returns an ordered subset of its input, non-empty when the input is |
| Narrowing.TwoPairsNarrow | PokerLib/Game.cs:114-126 | the two-pairs loop returns an ordered subset of its input, non-empty when the input is |
| Narrowing.ThreeOrFullNarrow | PokerLib/Game.cs:127-134 | the trips and full-house branch returns an ordered subset of its input, non-empty when the input is |
| Narrowing.Narrow | PokerLib/Game.cs:106-142 | the chain picked by hand type returns an ordered subset of the contenders, non-empty when they are |
| Narrowing.BestByKeyIsCascade | PokerLib/Game.cs:169-199 | each `Best…Duplicate` helper narrows by its key and then by the five card ranks, stopping once one player is left |
| Narrowing.ThreeOrFullIsCascade | PokerLib/Game.cs:127-134 | trips and full houses narrow by the trips rank, the five ranks, the first pair rank and the five ranks again, stopping once one player is left |
| Narrowing.NarrowIsCascade | PokerLib/Game.cs:106-142 | for every hand type the chain is the cascade over that type's keys; royal flushes are not narrowed |
| Narrowing.AtMostAntisymmetric | PokerLib/Game.cs:158-167 | two hands each lexicographically at most the other agree on every key |
| Narrowing.CascadeKeepsLeaders | PokerLib/Game.cs:158-199 | when every player holds every key, the cascade succeeds and keeps exactly the players whose key vectors are lexicographically greatest |
| Narrowing.CascadeKeepsTied | PokerLib/Game.cs:158-199 | players who agree on every key all survive the cascade |
| Narrowing.CascadeIdempotent | PokerLib/Game.cs:158-199 | narrowing a second time by the same keys changes nothing |
| Narrowing.HighestRankCardsKeepsLeaders | PokerLib/Game.cs:158-167 | on players with five ranks, `HighestRankCards` keeps a non-empty ordered subset: exactly the players whose `CardRank` is the lexicographic maximum |
| Narrowing.HighestRankCardsIdempotent | PokerLib/Game.cs:158-167 | `HighestRankCards` applied to its own result returns it unchanged |
| Narrowing.BestByKeyKeepsLeaders | PokerLib/Game.cs:169-199 | `BestDuplicate`, `BestThreeDuplicate` and `BestFourDuplicate` keep exactly the players with the highest key and, among them, the greatest `CardRank`; four of a kind included |
| Narrowing.BestByKeyFaultsOnMissingKey | PokerLib/Game.cs:171 | a helper throws when any player lacks its first key |
| Narrowing.TwoPairsKeepsLeaders | PokerLib/Game.cs:114-126 | two pairs keep exactly the players with the highest higher pair, then the highest lower pair, then the greatest `CardRank` |
| Game.Scan | PokerLib/Game.cs:85-98 | the contender scan over the first seats: a stronger hand type clears the list, an at-least-as-strong one joins it; every listed seat is among the seats scanned, and `ScanFindsBestType` states which seats they are |
| Game.Contenders | PokerLib/Game.cs:85-98 | the seats the scan over the whole table lists are seated players; `ContendersHoldBestType` states that they are exactly the holders of the strongest hand type |
| Game.ScanFindsBestType | PokerLib/Game.cs:85-98 | after any number of seats, the scan lists in seating order exactly the seats whose hand type is at least every other's; all have the best type seen |
| Game.ContendersHoldBestType | PokerLib/Game.cs:85-98 | the contenders are exactly the seats holding the strongest hand type, in seating order, and there is one whenever a seat is taken |
| Game.Win | PokerLib/Game.cs:101 | `Win()` adds one win to that seat and changes nothing else |
| Game.SeatLoop | PokerLib/Game.cs:143-154 | the loop over every seated player leaves the table size and every hand unchanged and reports once per iteration; `SeatLoopCredits` states who is credited |
| Game.SeatLoopCredits | PokerLib/Game.cs:143-154 | the per-seat loop credits a sole survivor once per iteration and reports it each time; with several survivors no counter changes and each iteration reports a draw |
| Game.CompareHands | PokerLib/Game.cs:78-156 | `CompareHands` as written keeps the table size and every hand, and an empty table yields no change; its behaviour is stated by `SoleContenderWins`, `StrictlyStrongerTypeWins`, `TieIsDraw`, `NarrowedWinnerCreditedPerSeat`, `RoyalTieIsDraw`, `SurvivorsAreLeaders` and `ConsistentTableFaultsOnlyOnTrips` |
| Game.Survivors | PokerLib/Game.cs:99-142 | the seats left after narrowing are an ordered, non-empty subset of the contenders |
| Game.NoPlayersNoChange | PokerLib/Game.cs:85-104 | with no players nothing changes and nothing is reported |
| Game.SoleContenderWins | PokerLib/Game.cs:99-103 | a lone contender gains exactly one win and is reported once; no other seat changes |
| Game.StrictlyStrongerTypeWins | PokerLib/Game.cs:85-103 | a seat whose hand type beats everyone's wins once, whatever the card ranks |
| Game.TieIsDraw | PokerLib/Game.cs:139-154 | when several players survive narrowing, no counter changes and every notification is a draw of them: one per seat, plus one for a royal flush tie |
| Game.NarrowedWinnerCreditedPerSeat | PokerLib/Game.cs:143-149 | when narrowing leaves one of several contenders, that seat gains one win per seated player and is reported that many times; others are unchanged |
| Game.RoyalTieIsDraw | PokerLib/Game.cs:139-154 | a royal flush tie is not narrowed: all contenders draw, reported once before the loop and once per seat |
| Game.SurvivorsAreLeaders | PokerLib/Game.cs:104-142 | when every contender holds its chain's keys, the survivors are exactly the contenders with the lexicographically greatest keys |
| Game.ConsistentTableFaultsOnlyOnTrips | PokerLib/Game.cs:127-134 | with consistent records, `CompareHands` throws only on a ThreeOfAKind tie, from `DuplicateRank.First()`, and it throws exactly when `BestThreeDuplicate` leaves more than one player |
| Game.NarrowedWinAddsSeatCount | PokerLib/Game.cs:143-149 | a narrowed win adds as many wins to the table's total as there are seats |
| Game.SampleTableNarrowsToFirst | PokerLib/Game.cs:85-125 | on the two HighCard hands A K Q J 4 and Q 9 8 7 4, both are contenders and narrowing keeps the first |
| Game.HighCardWinCreditedTwice | PokerLib/Game.cs:143-149 | on that table the winner's counter goes from 0 to 2 and two `Winner` events are raised |
| Game.CompareHandsIntended | PokerLib/Game.cs:78-156 | the corrected comparison keeps the table size and every hand and raises at most one notification; `IntendedAwardsOneWin` relates it to `CompareHands` |
| Game.IntendedAwardsOneWin | PokerLib/Game.cs:99-154 | the corrected comparison fails exactly when the written one does and raises the same notifications once; a sole survivor gains exactly one win and no other seat changes; a draw or an empty table changes no counter |

## Left out

- `Game.RunGame` (the endless deal, discard, replace and compare loop),
  `SaveGameAndExit`, the `Game(string fileName)` constructor and `Exit`:
  `RunGame` sequences deal, discard, replace, `CompareHands` and collect
  through `Table`, `Hands` and the `NewDeal`, `SelectCardsToDiscard`,
  `RecievedReplacementCards` and `ShowAllHands` events; the others are
  file I/O, JSON and process exit. The model covers the `CompareHands`
  step of each round, not the round loop around it.
- `Game(string[])`: it throws when no names are given and otherwise only
  adds each name to the `Table`, which is outside this model.
- The hand evaluator (`Hands.Eval`) is not part of this model. Its output
  is taken as an input record (`Hands.Evaluated`). `Hands.Consistent`
  states the shape the evaluator is expected to give it.
- PokerLib/Player.cs is a wrapper over the hand evaluator `Hands`, which
  is outside this model. `Player.Win()` is declared outside
  PokerLib/Player.cs; the model takes it to add one to the win counter.
- `System.Random` in `Shuffle` is replaced by the `picks` sequence.
  `Deck`'s `IEnumerable` plumbing is omitted.
- The `Winner` and `Draw` events are returned as outcomes. An event with
  no subscriber throws in the source, and that is not modelled.
- Game.Win: the win counter is an unbounded integer, with no 32-bit
  wrap-around, because a counter would need over two billion rounds to
  wrap.
- Cards.Rank: the `Rank` enum is declared outside the modelled files, so
  the values of Jack, Queen, King and Ace are assumed: the model uses 11
  to 14. Only their order matters to the
  narrowing, and only the values 2 to 10 are rendered as numbers.
- Cards.Suite and Hands.HandType: both enums are declared outside the
  modelled files. The model assumes the suit order Hearts,
  Spades, Clubs, Diamonds, which fixes the order `Decks.NewDeck` builds.
  It also assumes hand-type values 0 (HighCard) to 9 (RoyalStraightFlush)
  in the order `Hands.Strength` gives, which the `(int)HandType`
  comparisons at PokerLib/Game.cs:89-94 use.
- Decks.PutBackCard: the source accepts a null card, because `List.Add`
  takes null, and a null then sits in the deck. A deck here holds only
  cards, so putting back null is not modelled. The full-deck failure is an
  `ArgumentException` in the source and `FullDeck` here.
- Decks.GetTopCard: the empty-deck failure is a `NullReferenceException`
  in the source and `EmptyDeck` here.

## Findings

| source | as written | input that shows it | evidently intended | confidence | as-written member | corrected member |
|---|---|---|---|---|---|---|
| PokerLib/Game.cs:143-149 | after narrowing leaves one winner, the loop over every player calls `Win()` and raises `Winner` once per seated player | two HighCard players, A K Q J 4 against Q 9 8 7 4: the first player's wins go from 0 to 2 and `Winner` is raised twice | the sole survivor gains one win and `Winner` is raised once | high (not executed) | Game.HighCardWinCreditedTwice | Game.IntendedAwardsOneWin |
| PokerLib/Game.cs:139-154 | a royal flush tie raises `Draw` once before the per-seat loop and once per seated player in it | two royal flushes at a two-seat table: three `Draw` events | the tie is reported as a single draw | medium (not executed) | Game.RoyalTieIsDraw | Game.IntendedAwardsOneWin |

`Game.CompareHandsIntended` is the corrected comparison. It applies the
same narrowing. It credits a sole survivor once, and reports a single
`Winner` or a single `Draw`.
