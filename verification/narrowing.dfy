/** The tie-break helpers of winner resolution (PokerLib/Game.cs:106-199):
    given the seats of the players still tied, each keeps only the
    players holding the highest value of some rank key, the way
    `Select(...).Max()` followed by `Where(... == max)` does.

    Players are named by their seat number (their index in the table), so
    a list of contenders is a `seq<nat>`. A helper that would throw — `Max()`
    over no players, `First()` on an empty key list, an index past the end
    of `CardRank` or `DuplicateRank` — returns `Err` instead. */
module Narrowing {
  import opened Results
  import opened Cards
  import opened Hands

  /** A tie-break key of an evaluated hand: `DuplicateRank[i]`,
      `ThreeDuplicateRank.First()`, `FourDuplicateRank.First()` or
      `CardRank[i]`. */
  datatype Key = Duplicate(index: nat) | ThreeDuplicate | FourDuplicate | CardAt(index: nat)

  /** Why a narrowing step throws: `Max()` over no players, or a player
      whose hand lacks the key. */
  datatype Fault = NoContenders | MissingKey(key: Key)

  predicate HasKey(h: Evaluated, k: Key)
  {
    match k
    case Duplicate(i) => i < |h.duplicateRank|
    case ThreeDuplicate => |h.threeDuplicateRank| > 0
    case FourDuplicate => |h.fourDuplicateRank| > 0
    case CardAt(i) => i < |h.cardRank|
  }

  function KeyValue(h: Evaluated, k: Key): Rank
    requires HasKey(h, k)
  {
    match k
    case Duplicate(i) => h.duplicateRank[i]
    case ThreeDuplicate => h.threeDuplicateRank[0]
    case FourDuplicate => h.fourDuplicateRank[0]
    case CardAt(i) => h.cardRank[i]
  }

  /** The five `CardRank` positions `HighestRankCards` compares, in order. */
  const RankKeys: seq<Key> := [CardAt(0), CardAt(1), CardAt(2), CardAt(3), CardAt(4)]

  /** Every seat number names a player of the table. */
  predicate Seated(hands: seq<Evaluated>, ids: seq<nat>)
  {
    forall x :: x in ids ==> x < |hands|
  }

  /** Seats listed in strictly increasing order, i.e. in seating order. */
  predicate Increasing(ids: seq<nat>)
  {
    forall i, j :: 0 <= i < j < |ids| ==> ids[i] < ids[j]
  }

  /** An increasing list of `n` seats spans at least `n - 1` places, so
      a list naming only one seat holds it once. */
  lemma {:induction false} IncreasingSpread(ids: seq<nat>)
    requires Increasing(ids) && |ids| > 0
    ensures ids[|ids| - 1] - ids[0] >= |ids| - 1
    decreases |ids|
  {
    if |ids| > 1 {
      var init := ids[..|ids| - 1];
      assert Increasing(init);
      IncreasingSpread(init);
    }
  }

  predicate AllHold(hands: seq<Evaluated>, ids: seq<nat>, k: Key)
    requires Seated(hands, ids)
  {
    forall x :: x in ids ==> HasKey(hands[x], k)
  }

  predicate HoldsAll(h: Evaluated, keys: seq<Key>)
  {
    forall k :: k in keys ==> HasKey(h, k)
  }

  predicate AllHoldAll(hands: seq<Evaluated>, ids: seq<nat>, keys: seq<Key>)
    requires Seated(hands, ids)
  {
    forall x :: x in ids ==> HoldsAll(hands[x], keys)
  }

  /** Seat `x` holds the highest value of key `k` among `ids`. */
  predicate IsTop(hands: seq<Evaluated>, ids: seq<nat>, k: Key, x: nat)
    requires Seated(hands, ids) && AllHold(hands, ids, k) && x in ids
  {
    forall y :: y in ids ==> KeyValue(hands[y], k) <= KeyValue(hands[x], k)
  }

  /** What every narrowing step guarantees of a successful result: it
      keeps some of the given players, at least one if there were any,
      and keeps them in the order they were given. */
  predicate Narrowed(hands: seq<Evaluated>, ids: seq<nat>, r: Result<seq<nat>, Fault>)
  {
    r.Ok? ==>
      && (forall x :: x in r.value ==> x in ids)
      && Seated(hands, r.value)
      && (|ids| > 0 ==> |r.value| > 0)
      && (Increasing(ids) ==> Increasing(r.value))
  }

  // ---------------------------------------------------------------------
  // One narrowing step: `Select(key).Max()` then `Where(key == max)`

  /** `Select(key).Max()`. */
  function MaxKey(hands: seq<Evaluated>, ids: seq<nat>, k: Key): (m: Rank)
    requires Seated(hands, ids) && |ids| > 0 && AllHold(hands, ids, k)
    ensures forall x :: x in ids ==> KeyValue(hands[x], k) <= m
    ensures exists x :: x in ids && KeyValue(hands[x], k) == m
    decreases |ids|
  {
    assert ids[0] in ids;
    var v := KeyValue(hands[ids[0]], k);
    if |ids| == 1 then v
    else
      assert forall x :: x in ids[1..] ==> x in ids;
      var rest := MaxKey(hands, ids[1..], k);
      if v < rest then rest else v
  }

  /** `Where(key == m).ToList()`. */
  function KeepIf(hands: seq<Evaluated>, ids: seq<nat>, k: Key, m: Rank): (r: seq<nat>)
    requires Seated(hands, ids) && AllHold(hands, ids, k)
    ensures forall x :: x in r <==> x in ids && KeyValue(hands[x], k) == m
    decreases |ids|
  {
    if |ids| == 0 then []
    else
      assert ids[0] in ids;
      assert forall x :: x in ids[1..] ==> x in ids;
      var rest := KeepIf(hands, ids[1..], k, m);
      if KeyValue(hands[ids[0]], k) == m then [ids[0]] + rest else rest
  }

  /** Every seat after the first of an increasing list comes later. */
  lemma TailAbove(ids: seq<nat>)
    requires Increasing(ids) && |ids| > 0
    ensures Increasing(ids[1..])
    ensures forall x :: x in ids[1..] ==> ids[0] < x
  {
    forall x | x in ids[1..]
      ensures ids[0] < x
    {
      var j :| 0 <= j < |ids[1..]| && ids[1..][j] == x;
      assert ids[j + 1] == x;
    }
  }

  /** A seat before every seat of an increasing list extends it. */
  lemma PrependIncreasing(a: nat, rest: seq<nat>)
    requires Increasing(rest) && forall x :: x in rest ==> a < x
    ensures Increasing([a] + rest)
  {
    var r := [a] + rest;
    forall i, j | 0 <= i < j < |r|
      ensures r[i] < r[j]
    {
      assert r[j] == rest[j - 1] && rest[j - 1] in rest;
      if i > 0 {
        assert r[i] == rest[i - 1];
      }
    }
  }

  /** Filtering keeps the seating order. */
  lemma {:induction false} KeepIfOrdered(hands: seq<Evaluated>, ids: seq<nat>, k: Key, m: Rank)
    requires Seated(hands, ids) && AllHold(hands, ids, k)
    ensures Increasing(ids) ==> Increasing(KeepIf(hands, ids, k, m))
    decreases |ids|
  {
    if |ids| > 0 && Increasing(ids) {
      var tail := ids[1..];
      assert ids[0] in ids;
      assert forall x :: x in tail ==> x in ids;
      TailAbove(ids);
      KeepIfOrdered(hands, tail, k, m);
      var rest := KeepIf(hands, tail, k, m);
      if KeyValue(hands[ids[0]], k) == m {
        PrependIncreasing(ids[0], rest);
      }
    }
  }

  /** Keeps the players holding the highest value of key `k`. */
  function KeepBest(hands: seq<Evaluated>, ids: seq<nat>, k: Key): (r: Result<seq<nat>, Fault>)
    requires Seated(hands, ids)
    ensures r.Err? <==> |ids| == 0 || !AllHold(hands, ids, k)
    ensures r.Err? ==> r.error == if |ids| == 0 then NoContenders else MissingKey(k)
    ensures Narrowed(hands, ids, r)
    ensures r.Ok? ==> forall x :: x in r.value <==> x in ids && IsTop(hands, ids, k, x)
  {
    if |ids| == 0 then Err(NoContenders)
    else if !AllHold(hands, ids, k) then Err(MissingKey(k))
    else
      var m := MaxKey(hands, ids, k);
      var r := KeepIf(hands, ids, k, m);
      assert forall x :: x in ids ==> (KeyValue(hands[x], k) == m <==> IsTop(hands, ids, k, x));
      KeepIfOrdered(hands, ids, k, m);
      Ok(r)
  }

  /** Narrows by each key in turn, stopping as soon as one player is
      left; fails at the first key some remaining player lacks. */
  function Cascade(hands: seq<Evaluated>, ids: seq<nat>, keys: seq<Key>): (r: Result<seq<nat>, Fault>)
    requires Seated(hands, ids)
    ensures Narrowed(hands, ids, r)
    ensures r.Ok? && |keys| > 0 ==> |ids| > 0
    ensures r.Err? ==> (r.error == NoContenders && |ids| == 0) || (r.error.MissingKey? && r.error.key in keys)
    decreases |keys|
  {
    if |keys| == 0 then Ok(ids)
    else match KeepBest(hands, ids, keys[0])
      case Err(e) => Err(e)
      case Ok(kept) =>
        if |kept| == 1 then Ok(kept)
        else Cascade(hands, kept, keys[1..])
  }

  // ---------------------------------------------------------------------
  // The helpers as written in Game.cs

  /** `HighestRankCards`: narrow by `CardRank[0]`, ..., `CardRank[4]`,
      breaking out once one player is left. */
  function HighestRankCards(hands: seq<Evaluated>, ids: seq<nat>): (r: Result<seq<nat>, Fault>)
    requires Seated(hands, ids)
    ensures Narrowed(hands, ids, r)
  {
    Cascade(hands, ids, RankKeys)
  }

  /** The shared shape of `BestDuplicate`, `BestThreeDuplicate` and
      `BestFourDuplicate`: narrow by one key, then by `HighestRankCards`
      if more than one player is left. */
  function BestByKey(hands: seq<Evaluated>, ids: seq<nat>, k: Key): (r: Result<seq<nat>, Fault>)
    requires Seated(hands, ids)
    ensures Narrowed(hands, ids, r)
  {
    match KeepBest(hands, ids, k)
    case Err(e) => Err(e)
    case Ok(kept) =>
      if |kept| > 1 then HighestRankCards(hands, kept) else Ok(kept)
  }

  function BestDuplicate(hands: seq<Evaluated>, ids: seq<nat>): (r: Result<seq<nat>, Fault>)
    requires Seated(hands, ids)
    ensures Narrowed(hands, ids, r)
  {
    BestByKey(hands, ids, Duplicate(0))
  }

  function BestThreeDuplicate(hands: seq<Evaluated>, ids: seq<nat>): (r: Result<seq<nat>, Fault>)
    requires Seated(hands, ids)
    ensures Narrowed(hands, ids, r)
  {
    BestByKey(hands, ids, ThreeDuplicate)
  }

  function BestFourDuplicate(hands: seq<Evaluated>, ids: seq<nat>): (r: Result<seq<nat>, Fault>)
    requires Seated(hands, ids)
    ensures Narrowed(hands, ids, r)
  {
    BestByKey(hands, ids, FourDuplicate)
  }

  /** The inline TwoPairs loop: narrow by `DuplicateRank[0]`, then by
      `DuplicateRank[1]` unless one player is left, then by
      `HighestRankCards` if more than one is still left. */
  function TwoPairsNarrow(hands: seq<Evaluated>, ids: seq<nat>): (r: Result<seq<nat>, Fault>)
    requires Seated(hands, ids)
    ensures Narrowed(hands, ids, r)
  {
    match KeepBest(hands, ids, Duplicate(0))
    case Err(e) => Err(e)
    case Ok(high) =>
      if |high| == 1 then Ok(high)
      else TwoPairsNarrowTail(hands, high)
  }

  /** ThreeOfAKind and FullHouse: `BestThreeDuplicate`, then
      `BestDuplicate` if more than one player is left. */
  function ThreeOrFullNarrow(hands: seq<Evaluated>, ids: seq<nat>): (r: Result<seq<nat>, Fault>)
    requires Seated(hands, ids)
    ensures Narrowed(hands, ids, r)
  {
    match BestThreeDuplicate(hands, ids)
    case Err(e) => Err(e)
    case Ok(kept) =>
      if |kept| > 1 then BestDuplicate(hands, kept) else Ok(kept)
  }

  /** The narrowing chain `CompareHands` picks for the best hand type
      when several players hold it. RoyalStraightFlush is not narrowed. */
  function Narrow(t: HandType, hands: seq<Evaluated>, ids: seq<nat>): (r: Result<seq<nat>, Fault>)
    requires Seated(hands, ids)
    ensures Narrowed(hands, ids, r)
  {
    match t
    case Pair => BestDuplicate(hands, ids)
    case HighCard => HighestRankCards(hands, ids)
    case Straight => HighestRankCards(hands, ids)
    case Flush => HighestRankCards(hands, ids)
    case StraightFlush => HighestRankCards(hands, ids)
    case TwoPairs => TwoPairsNarrow(hands, ids)
    case ThreeOfAKind => ThreeOrFullNarrow(hands, ids)
    case FullHouse => ThreeOrFullNarrow(hands, ids)
    case FourOfAKind => BestFourDuplicate(hands, ids)
    case RoyalStraightFlush => Ok(ids)
  }

  // ---------------------------------------------------------------------
  // Every chain is one cascade over a list of keys

  /** The keys each chain compares, in the order it compares them. */
  function NarrowingKeys(t: HandType): seq<Key>
  {
    match t
    case Pair => [Duplicate(0)] + RankKeys
    case HighCard => RankKeys
    case Straight => RankKeys
    case Flush => RankKeys
    case StraightFlush => RankKeys
    case TwoPairs => [Duplicate(0), Duplicate(1)] + RankKeys
    case ThreeOfAKind => [ThreeDuplicate] + RankKeys + [Duplicate(0)] + RankKeys
    case FullHouse => [ThreeDuplicate] + RankKeys + [Duplicate(0)] + RankKeys
    case FourOfAKind => [FourDuplicate] + RankKeys
    case RoyalStraightFlush => []
  }

  /** Narrowing by `a` and then, unless one player is left, by `b` is
      narrowing by `a + b`. */
  lemma {:induction false} CascadeAppend(hands: seq<Evaluated>, ids: seq<nat>, a: seq<Key>, b: seq<Key>)
    requires Seated(hands, ids) && |a| > 0
    ensures Cascade(hands, ids, a + b) ==
      match Cascade(hands, ids, a)
      case Err(e) => Err(e)
      case Ok(kept) => if |kept| == 1 then Ok(kept) else Cascade(hands, kept, b)
    decreases |a|
  {
    assert (a + b)[0] == a[0];
    assert (a + b)[1..] == a[1..] + b;
    match KeepBest(hands, ids, a[0])
    case Err(e) =>
    case Ok(kept) =>
      if |kept| != 1 && |a| > 1 {
        CascadeAppend(hands, kept, a[1..], b);
      }
  }

  /** The one-key helpers are the cascade over that key and `CardRank`. */
  lemma BestByKeyIsCascade(hands: seq<Evaluated>, ids: seq<nat>, k: Key)
    requires Seated(hands, ids)
    ensures BestByKey(hands, ids, k) == Cascade(hands, ids, [k] + RankKeys)
  {
    assert ([k] + RankKeys)[0] == k;
    assert ([k] + RankKeys)[1..] == RankKeys;
  }

  /** Each chain of `CompareHands` is the cascade over its keys, errors
      included. */
  lemma NarrowIsCascade(t: HandType, hands: seq<Evaluated>, ids: seq<nat>)
    requires Seated(hands, ids)
    ensures Narrow(t, hands, ids) == Cascade(hands, ids, NarrowingKeys(t))
  {
    match t
    case Pair => BestByKeyIsCascade(hands, ids, Duplicate(0));
    case HighCard =>
    case Straight =>
    case Flush =>
    case StraightFlush =>
    case TwoPairs =>
      var keys := [Duplicate(0), Duplicate(1)] + RankKeys;
      assert keys[0] == Duplicate(0);
      assert keys[1..] == [Duplicate(1)] + RankKeys;
      assert keys[1..][1..] == RankKeys;
      match KeepBest(hands, ids, Duplicate(0)) {
        case Err(e) =>
        case Ok(high) =>
          if |high| != 1 {
            assert Cascade(hands, high, keys[1..]) == TwoPairsNarrowTail(hands, high);
          }
      }
    case ThreeOfAKind => ThreeOrFullIsCascade(hands, ids);
    case FullHouse => ThreeOrFullIsCascade(hands, ids);
    case FourOfAKind => BestByKeyIsCascade(hands, ids, FourDuplicate);
    case RoyalStraightFlush =>
  }

  /** The TwoPairs chain after the higher pair left several players. */
  function TwoPairsNarrowTail(hands: seq<Evaluated>, high: seq<nat>): (r: Result<seq<nat>, Fault>)
    requires Seated(hands, high)
    ensures Narrowed(hands, high, r)
  {
    match KeepBest(hands, high, Duplicate(1))
    case Err(e) => Err(e)
    case Ok(low) => if |low| > 1 then HighestRankCards(hands, low) else Ok(low)
  }

  lemma ThreeOrFullIsCascade(hands: seq<Evaluated>, ids: seq<nat>)
    requires Seated(hands, ids)
    ensures ThreeOrFullNarrow(hands, ids) == Cascade(hands, ids, [ThreeDuplicate] + RankKeys + [Duplicate(0)] + RankKeys)
  {
    var a := [ThreeDuplicate] + RankKeys;
    var b := [Duplicate(0)] + RankKeys;
    assert [ThreeDuplicate] + RankKeys + [Duplicate(0)] + RankKeys == a + b;
    CascadeAppend(hands, ids, a, b);
    BestByKeyIsCascade(hands, ids, ThreeDuplicate);
    match Cascade(hands, ids, a)
    case Err(e) =>
    case Ok(kept) =>
      BestByKeyIsCascade(hands, kept, Duplicate(0));
  }

  // ---------------------------------------------------------------------
  // What a cascade keeps: the players whose keys are lexicographically
  // greatest

  /** Hand `a`'s key values are lexicographically at most hand `b`'s,
      comparing key by key in list order. */
  predicate AtMost(a: Evaluated, b: Evaluated, keys: seq<Key>)
    requires HoldsAll(a, keys) && HoldsAll(b, keys)
    decreases |keys|
  {
    if |keys| == 0 then true
    else
      assert forall k :: k in keys[1..] ==> k in keys;
      || KeyValue(a, keys[0]) < KeyValue(b, keys[0])
      || (KeyValue(a, keys[0]) == KeyValue(b, keys[0]) && AtMost(a, b, keys[1..]))
  }

  /** Seat `x`'s key values are lexicographically greatest among `ids`. */
  predicate Leader(hands: seq<Evaluated>, ids: seq<nat>, keys: seq<Key>, x: nat)
    requires Seated(hands, ids) && AllHoldAll(hands, ids, keys) && x in ids
  {
    forall y :: y in ids ==> AtMost(hands[y], hands[x], keys)
  }

  /** All of `ids` agree on every key. */
  predicate Tied(hands: seq<Evaluated>, ids: seq<nat>, keys: seq<Key>)
    requires Seated(hands, ids) && AllHoldAll(hands, ids, keys)
  {
    forall x, y, k :: x in ids && y in ids && k in keys ==> KeyValue(hands[x], k) == KeyValue(hands[y], k)
  }

  lemma {:induction false} AtMostReflexive(h: Evaluated, keys: seq<Key>)
    requires HoldsAll(h, keys)
    ensures AtMost(h, h, keys)
    decreases |keys|
  {
    if |keys| > 0 {
      assert forall k :: k in keys[1..] ==> k in keys;
      AtMostReflexive(h, keys[1..]);
    }
  }

  lemma {:induction false} AtMostAntisymmetric(a: Evaluated, b: Evaluated, keys: seq<Key>)
    requires HoldsAll(a, keys) && HoldsAll(b, keys)
    requires AtMost(a, b, keys) && AtMost(b, a, keys)
    ensures forall k :: k in keys ==> KeyValue(a, k) == KeyValue(b, k)
    decreases |keys|
  {
    if |keys| > 0 {
      assert forall k :: k in keys[1..] ==> k in keys;
      AtMostAntisymmetric(a, b, keys[1..]);
      forall k | k in keys
        ensures KeyValue(a, k) == KeyValue(b, k)
      {
        if k != keys[0] {
          assert k in keys[1..];
        }
      }
    }
  }

  /** The cascade succeeds when every player holds every key, and keeps
      exactly the players whose key values are lexicographically
      greatest. */
  lemma {:induction false} CascadeKeepsLeaders(hands: seq<Evaluated>, ids: seq<nat>, keys: seq<Key>)
    requires Seated(hands, ids) && |ids| > 0 && AllHoldAll(hands, ids, keys)
    ensures Cascade(hands, ids, keys).Ok?
    ensures forall x :: x in Cascade(hands, ids, keys).value <==> x in ids && Leader(hands, ids, keys, x)
    decreases |keys|
  {
    if |keys| == 0 {
      forall x | x in ids
        ensures Leader(hands, ids, keys, x)
      {
      }
    } else {
      var k := keys[0];
      assert AllHold(hands, ids, k);
      var kept := KeepBest(hands, ids, k).value;
      assert forall x :: x in kept ==> x in ids;
      forall x | x in ids && x !in kept
        ensures !Leader(hands, ids, keys, x)
      {
        assert !IsTop(hands, ids, k, x);
        var y :| y in ids && KeyValue(hands[y], k) > KeyValue(hands[x], k);
        assert !AtMost(hands[y], hands[x], keys);
      }
      if |kept| == 1 {
        forall x | x in kept
          ensures Leader(hands, ids, keys, x)
        {
          forall y | y in ids
            ensures AtMost(hands[y], hands[x], keys)
          {
            if KeyValue(hands[y], k) == KeyValue(hands[x], k) {
              assert IsTop(hands, ids, k, y);
              assert kept == [kept[0]];
              assert y == x;
              AtMostReflexive(hands[x], keys);
            }
          }
        }
      } else {
        var rest := keys[1..];
        assert forall x :: x in kept ==> HoldsAll(hands[x], rest);
        CascadeKeepsLeaders(hands, kept, rest);
        forall x | x in kept
          ensures Leader(hands, kept, rest, x) <==> Leader(hands, ids, keys, x)
        {
          if Leader(hands, kept, rest, x) {
            forall y | y in ids
              ensures AtMost(hands[y], hands[x], keys)
            {
              if y !in kept {
                assert !IsTop(hands, ids, k, y);
              }
            }
          }
          if Leader(hands, ids, keys, x) {
            forall y | y in kept
              ensures AtMost(hands[y], hands[x], rest)
            {
              assert AtMost(hands[y], hands[x], keys);
            }
          }
        }
      }
    }
  }

  lemma {:induction false} KeepIfKeepsAll(hands: seq<Evaluated>, ids: seq<nat>, k: Key, m: Rank)
    requires Seated(hands, ids) && AllHold(hands, ids, k)
    requires forall x :: x in ids ==> KeyValue(hands[x], k) == m
    ensures KeepIf(hands, ids, k, m) == ids
    decreases |ids|
  {
    if |ids| > 0 {
      assert forall x :: x in ids[1..] ==> x in ids;
      KeepIfKeepsAll(hands, ids[1..], k, m);
      assert ids == [ids[0]] + ids[1..];
    }
  }

  /** Players who agree on every key all survive the cascade. */
  lemma {:induction false} CascadeKeepsTied(hands: seq<Evaluated>, ids: seq<nat>, keys: seq<Key>)
    requires Seated(hands, ids) && |ids| > 0 && AllHoldAll(hands, ids, keys)
    requires Tied(hands, ids, keys)
    ensures Cascade(hands, ids, keys) == Ok(ids)
    decreases |keys|
  {
    if |keys| > 0 {
      var k := keys[0];
      assert AllHold(hands, ids, k);
      assert ids[0] in ids && k in keys;
      var m := KeyValue(hands[ids[0]], k);
      assert forall x :: x in ids ==> KeyValue(hands[x], k) == m;
      assert MaxKey(hands, ids, k) == m;
      KeepIfKeepsAll(hands, ids, k, m);
      if |ids| != 1 {
        assert forall k' :: k' in keys[1..] ==> k' in keys;
        assert forall x :: x in ids ==> HoldsAll(hands[x], keys[1..]);
        CascadeKeepsTied(hands, ids, keys[1..]);
      }
    }
  }

  /** Narrowing twice by the same keys changes nothing the second time. */
  lemma CascadeIdempotent(hands: seq<Evaluated>, ids: seq<nat>, keys: seq<Key>)
    requires Seated(hands, ids) && |ids| > 0 && AllHoldAll(hands, ids, keys)
    ensures Cascade(hands, ids, keys).Ok?
    ensures Cascade(hands, Cascade(hands, ids, keys).value, keys) == Cascade(hands, ids, keys)
  {
    CascadeKeepsLeaders(hands, ids, keys);
    var kept := Cascade(hands, ids, keys).value;
    forall x, y, k | x in kept && y in kept && k in keys
      ensures KeyValue(hands[x], k) == KeyValue(hands[y], k)
    {
      AtMostAntisymmetric(hands[x], hands[y], keys);
    }
    CascadeKeepsTied(hands, kept, keys);
  }

  // ---------------------------------------------------------------------
  // The helpers' properties

  /** Five card ranks are enough for every positional key. */
  lemma RanksHeld(h: Evaluated)
    requires |h.cardRank| >= 5
    ensures HoldsAll(h, RankKeys)
  {
    assert forall k :: k in RankKeys ==> k.CardAt? && k.index < 5;
  }

  lemma AllRanksHeld(hands: seq<Evaluated>, ids: seq<nat>)
    requires Seated(hands, ids)
    requires forall x :: x in ids ==> |hands[x].cardRank| >= 5
    ensures AllHoldAll(hands, ids, RankKeys)
  {
    forall x | x in ids
      ensures HoldsAll(hands[x], RankKeys)
    {
      RanksHeld(hands[x]);
    }
  }

  /** `HighestRankCards` on players with five ranks each keeps a non-empty
      selection of them, in their order, and exactly those whose
      `CardRank` is the lexicographic maximum. */
  lemma HighestRankCardsKeepsLeaders(hands: seq<Evaluated>, ids: seq<nat>)
    requires Seated(hands, ids) && |ids| > 0
    requires forall x :: x in ids ==> |hands[x].cardRank| >= 5
    ensures AllHoldAll(hands, ids, RankKeys)
    ensures HighestRankCards(hands, ids).Ok?
    ensures var kept := HighestRankCards(hands, ids).value;
      && |kept| > 0
      && (Increasing(ids) ==> Increasing(kept))
      && forall x :: x in kept <==> x in ids && Leader(hands, ids, RankKeys, x)
  {
    AllRanksHeld(hands, ids);
    CascadeKeepsLeaders(hands, ids, RankKeys);
  }

  /** `HighestRankCards` is idempotent. */
  lemma HighestRankCardsIdempotent(hands: seq<Evaluated>, ids: seq<nat>)
    requires Seated(hands, ids) && |ids| > 0
    requires forall x :: x in ids ==> |hands[x].cardRank| >= 5
    ensures HighestRankCards(hands, ids).Ok?
    ensures HighestRankCards(hands, HighestRankCards(hands, ids).value) == HighestRankCards(hands, ids)
  {
    AllRanksHeld(hands, ids);
    CascadeIdempotent(hands, ids, RankKeys);
  }

  /** `BestDuplicate`, `BestThreeDuplicate` and `BestFourDuplicate` keep
      the players holding the highest key and, among those, the ones whose
      `CardRank` is lexicographically greatest. */
  lemma BestByKeyKeepsLeaders(hands: seq<Evaluated>, ids: seq<nat>, k: Key)
    requires Seated(hands, ids) && |ids| > 0
    requires forall x :: x in ids ==> HasKey(hands[x], k) && |hands[x].cardRank| >= 5
    ensures AllHoldAll(hands, ids, [k] + RankKeys)
    ensures BestByKey(hands, ids, k).Ok?
    ensures forall x :: x in BestByKey(hands, ids, k).value <==> x in ids && Leader(hands, ids, [k] + RankKeys, x)
  {
    var keys := [k] + RankKeys;
    forall x | x in ids
      ensures HoldsAll(hands[x], keys)
    {
      RanksHeld(hands[x]);
      assert forall k' :: k' in keys ==> k' == k || k' in RankKeys;
    }
    BestByKeyIsCascade(hands, ids, k);
    CascadeKeepsLeaders(hands, ids, keys);
  }

  /** A helper faults when some contender lacks its first key, however the
      others compare. */
  lemma BestByKeyFaultsOnMissingKey(hands: seq<Evaluated>, ids: seq<nat>, k: Key, x: nat)
    requires Seated(hands, ids) && x in ids && !HasKey(hands[x], k)
    ensures BestByKey(hands, ids, k) == Err(MissingKey(k))
  {
  }

  /** TwoPairs keeps the players with the highest higher pair, then the
      highest lower pair, then the greatest `CardRank`. */
  lemma TwoPairsKeepsLeaders(hands: seq<Evaluated>, ids: seq<nat>)
    requires Seated(hands, ids) && |ids| > 0
    requires forall x :: x in ids ==> |hands[x].duplicateRank| >= 2 && |hands[x].cardRank| >= 5
    ensures AllHoldAll(hands, ids, [Duplicate(0), Duplicate(1)] + RankKeys)
    ensures TwoPairsNarrow(hands, ids).Ok?
    ensures forall x :: x in TwoPairsNarrow(hands, ids).value <==>
      x in ids && Leader(hands, ids, [Duplicate(0), Duplicate(1)] + RankKeys, x)
  {
    var keys := NarrowingKeys(TwoPairs);
    assert keys == [Duplicate(0), Duplicate(1)] + RankKeys;
    forall x | x in ids
      ensures HoldsAll(hands[x], keys)
    {
      RanksHeld(hands[x]);
      assert forall k :: k in keys ==> k == Duplicate(0) || k == Duplicate(1) || k in RankKeys;
    }
    NarrowIsCascade(TwoPairs, hands, ids);
    CascadeKeepsLeaders(hands, ids, keys);
  }
}
