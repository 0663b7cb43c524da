/** The evaluated hand a player carries into winner resolution. The
    evaluator that fills it in (the `Hands` class) is not part of this
    model: its output is taken as given. */
module Hands {
  import opened Cards

  /** The ten hand categories, weakest first. */
  datatype HandType =
    | HighCard | Pair | TwoPairs | ThreeOfAKind | Straight
    | Flush | FullHouse | FourOfAKind | StraightFlush | RoyalStraightFlush

  /** The category's enum value; categories compare by it. */
  function Strength(t: HandType): nat
  {
    match t
    case HighCard => 0
    case Pair => 1
    case TwoPairs => 2
    case ThreeOfAKind => 3
    case Straight => 4
    case Flush => 5
    case FullHouse => 6
    case FourOfAKind => 7
    case StraightFlush => 8
    case RoyalStraightFlush => 9
  }

  /** Distinct categories have distinct strengths, so comparing strengths
      is a strict total order on categories; HighCard is the weakest. */
  lemma StrengthOrdersCategories(a: HandType, b: HandType)
    ensures Strength(a) == Strength(b) <==> a == b
    ensures Strength(HighCard) <= Strength(a)
  {
  }

  /** What the evaluator records about a hand: its category, its five
      ranks high to low, and the ranks of its pairs, its three of a kind
      and its four of a kind. */
  datatype Evaluated = Evaluated(
    handType: HandType,
    cardRank: seq<Rank>,
    duplicateRank: seq<Rank>,
    threeDuplicateRank: seq<Rank>,
    fourDuplicateRank: seq<Rank>)

  /** How many pair ranks a hand of the category records. */
  function PairCount(t: HandType): nat
  {
    match t
    case Pair => 1
    case TwoPairs => 2
    case FullHouse => 1
    case _ => 0
  }

  /** The record's key lists have the lengths its category implies. */
  predicate Consistent(h: Evaluated)
  {
    && |h.cardRank| == 5
    && |h.duplicateRank| == PairCount(h.handType)
    && |h.threeDuplicateRank| == (if h.handType == ThreeOfAKind || h.handType == FullHouse then 1 else 0)
    && |h.fourDuplicateRank| == (if h.handType == FourOfAKind then 1 else 0)
  }
}
