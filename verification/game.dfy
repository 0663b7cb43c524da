/** Winner resolution (`Game.CompareHands`, PokerLib/Game.cs:78-156).

    A round's table is a sequence of seats, each with a name, a win
    counter and the evaluated hand. `CompareHands` collects the seats
    holding the strongest hand type, narrows them with the chain for that
    type, credits wins and reports the result. The `Winner` and `Draw`
    events are returned as a list of outcomes in the order they would be
    raised. */
module Game {
  import opened Results
  import opened Hands
  import opened Narrowing

  datatype Seat = Seat(name: string, wins: int, hand: Evaluated)

  /** A `Winner(player)` or `Draw(players)` notification. */
  datatype Outcome = Winner(seat: nat) | Draw(seats: seq<nat>)

  /** The table after a comparison, and the notifications raised. */
  datatype Round = Round(players: seq<Seat>, outcomes: seq<Outcome>)

  function HandsOf(players: seq<Seat>): (hands: seq<Evaluated>)
    ensures |hands| == |players|
    ensures forall i :: 0 <= i < |players| ==> hands[i] == players[i].hand
  {
    seq(|players|, i requires 0 <= i < |players| => players[i].hand)
  }

  // ---------------------------------------------------------------------
  // Contenders (lines 85-98)

  /** The contender scan after its first `n` seats: the best hand type
      met so far (starting from HighCard) and the seats holding it. A
      stronger type clears the list; a type at least as strong as the best
      joins it. */
  function Scan(hands: seq<Evaluated>, n: nat): (r: (HandType, seq<nat>))
    requires n <= |hands|
    ensures forall x :: x in r.1 ==> x < n
  {
    if n == 0 then (HighCard, [])
    else
      var prev := Scan(hands, n - 1);
      var t := hands[n - 1].handType;
      var best := if Strength(t) > Strength(prev.0) then t else prev.0;
      var list := if Strength(t) > Strength(prev.0) then [] else prev.1;
      if Strength(t) >= Strength(best) then (best, list + [n - 1]) else (best, list)
  }

  function BestType(hands: seq<Evaluated>): HandType
  {
    Scan(hands, |hands|).0
  }

  function Contenders(hands: seq<Evaluated>): (c: seq<nat>)
    ensures Seated(hands, c)
  {
    Scan(hands, |hands|).1
  }

  /** Seat `x` holds a hand type at least as strong as that of every one
      of the first `n` seats. */
  predicate HoldsBestType(hands: seq<Evaluated>, n: nat, x: nat)
    requires x < n <= |hands|
  {
    forall y :: 0 <= y < n ==> Strength(hands[y].handType) <= Strength(hands[x].handType)
  }

  /** What the scan over the first `n` seats has found: `r.1` lists, in
      seating order, exactly the seats whose hand type is at least as
      strong as every other's, all of them of type `r.0`, which bounds
      every hand type seen. */
  ghost predicate ScanSound(hands: seq<Evaluated>, n: nat, r: (HandType, seq<nat>))
    requires n <= |hands|
  {
    && Increasing(r.1)
    && (forall x: nat :: x in r.1 <==> x < n && HoldsBestType(hands, n, x))
    && (forall x :: x in r.1 ==> x < n && hands[x].handType == r.0)
    && (forall y :: 0 <= y < n ==> Strength(hands[y].handType) <= Strength(r.0))
    && (n > 0 ==> |r.1| > 0)
  }

  lemma ScanStepStronger(hands: seq<Evaluated>, n: nat, prev: (HandType, seq<nat>))
    requires 0 < n <= |hands| && ScanSound(hands, n - 1, prev)
    requires Strength(hands[n - 1].handType) > Strength(prev.0)
    ensures ScanSound(hands, n, (hands[n - 1].handType, [n - 1]))
  {
    forall x: nat | x < n - 1
      ensures !HoldsBestType(hands, n, x)
    {
      assert Strength(hands[x].handType) < Strength(hands[n - 1].handType);
    }
  }

  lemma ScanStepEqual(hands: seq<Evaluated>, n: nat, prev: (HandType, seq<nat>))
    requires 0 < n <= |hands| && ScanSound(hands, n - 1, prev)
    requires hands[n - 1].handType == prev.0
    ensures ScanSound(hands, n, (prev.0, prev.1 + [n - 1]))
  {
    var list := prev.1 + [n - 1];
    assert forall i :: 0 <= i < |prev.1| ==> list[i] == prev.1[i] && prev.1[i] in prev.1;
    assert HoldsBestType(hands, n, n - 1);
    forall x: nat | x < n - 1
      ensures x in list <==> HoldsBestType(hands, n, x)
    {
      if x !in prev.1 {
        assert !HoldsBestType(hands, n - 1, x);
      }
    }
  }

  lemma ScanStepWeaker(hands: seq<Evaluated>, n: nat, prev: (HandType, seq<nat>))
    requires 0 < n <= |hands| && ScanSound(hands, n - 1, prev)
    requires n > 1
    requires Strength(hands[n - 1].handType) < Strength(prev.0)
    ensures ScanSound(hands, n, prev)
  {
    StrengthOrdersCategories(hands[n - 1].handType, hands[n - 1].handType);
    assert prev.1[0] in prev.1;
    forall x: nat | x < n - 1
      ensures x in prev.1 <==> HoldsBestType(hands, n, x)
    {
      if x !in prev.1 {
        assert !HoldsBestType(hands, n - 1, x);
      }
    }
    assert !HoldsBestType(hands, n, n - 1) by {
      assert Strength(hands[prev.1[0]].handType) > Strength(hands[n - 1].handType);
    }
  }

  lemma {:induction false} ScanFindsBestType(hands: seq<Evaluated>, n: nat)
    requires n <= |hands|
    ensures ScanSound(hands, n, Scan(hands, n))
  {
    if n > 0 {
      ScanFindsBestType(hands, n - 1);
      var prev := Scan(hands, n - 1);
      var t := hands[n - 1].handType;
      StrengthOrdersCategories(t, prev.0);
      if Strength(t) > Strength(prev.0) {
        assert [] + [n - 1] == [n - 1];
        ScanStepStronger(hands, n, prev);
      } else if Strength(t) == Strength(prev.0) {
        ScanStepEqual(hands, n, prev);
      } else {
        assert n > 1;
        ScanStepWeaker(hands, n, prev);
      }
    }
  }

  /** The contenders are exactly the seats holding the strongest hand
      type, in seating order, and there is one whenever anyone is seated. */
  lemma ContendersHoldBestType(players: seq<Seat>)
    ensures var hands := HandsOf(players);
      var c := Contenders(hands);
      && Increasing(c)
      && (forall x: nat :: x in c <==> (x < |players| &&
            forall y :: 0 <= y < |players| ==> Strength(players[y].hand.handType) <= Strength(players[x].hand.handType)))
      && (forall x :: x in c ==> players[x].hand.handType == BestType(hands))
      && (|players| > 0 ==> |c| > 0)
  {
    ScanFindsBestType(HandsOf(players), |players|);
  }

  // ---------------------------------------------------------------------
  // Crediting and reporting (lines 99-103, 139-154)

  /** `player.Win()`: one more win for the seat. */
  function Win(players: seq<Seat>, w: nat): (r: seq<Seat>)
    requires w < |players|
    ensures CreditedOnly(players, r, w, 1)
  {
    players[w := players[w].(wins := players[w].wins + 1)]
  }

  /** `after` is `before` with `k` more wins for seat `w` and nothing
      else changed. */
  predicate CreditedOnly(before: seq<Seat>, after: seq<Seat>, w: nat, k: int)
  {
    && |after| == |before|
    && w < |before|
    && after[w] == before[w].(wins := before[w].wins + k)
    && forall j :: 0 <= j < |before| && j != w ==> after[j] == before[j]
  }

  /** The loop over every seated player that follows narrowing: in each
      of `count` iterations, a sole survivor is credited and reported as
      winner, or all survivors are reported as a draw. */
  function SeatLoop(players: seq<Seat>, survivors: seq<nat>, count: nat): (r: Round)
    requires Seated(HandsOf(players), survivors)
    ensures |r.players| == |players| && |r.outcomes| == count
    ensures forall i :: 0 <= i < |players| ==> r.players[i].hand == players[i].hand
    decreases count
  {
    if count == 0 then Round(players, [])
    else if |survivors| == 1 then
      assert survivors[0] in survivors;
      var rest := SeatLoop(Win(players, survivors[0]), survivors, count - 1);
      Round(rest.players, [Winner(survivors[0])] + rest.outcomes)
    else
      var rest := SeatLoop(players, survivors, count - 1);
      Round(rest.players, [Draw(survivors)] + rest.outcomes)
  }

  /** The seat loop credits a sole survivor once per iteration and
      reports it each time; with several survivors it changes no counter
      and reports a draw each time. */
  lemma {:induction false} SeatLoopCredits(players: seq<Seat>, survivors: seq<nat>, count: nat)
    requires Seated(HandsOf(players), survivors)
    ensures var r := SeatLoop(players, survivors, count);
      && (|survivors| == 1 ==>
            CreditedOnly(players, r.players, survivors[0], count)
            && r.outcomes == seq(count, _ => Winner(survivors[0])))
      && (|survivors| != 1 ==>
            r.players == players
            && r.outcomes == seq(count, _ => Draw(survivors)))
    decreases count
  {
    if count == 0 {
      if |survivors| == 1 {
        assert survivors[0] in survivors;
      }
    } else if |survivors| == 1 {
      var w := survivors[0];
      assert w in survivors;
      var next := Win(players, w);
      SeatLoopCredits(next, survivors, count - 1);
      var rest := SeatLoop(next, survivors, count - 1);
      assert [Winner(w)] + rest.outcomes == seq(count, _ => Winner(w));
    } else {
      SeatLoopCredits(players, survivors, count - 1);
      var rest := SeatLoop(players, survivors, count - 1);
      assert [Draw(survivors)] + rest.outcomes == seq(count, _ => Draw(survivors));
    }
  }

  // ---------------------------------------------------------------------
  // CompareHands

  /** `CompareHands` as written: a sole contender wins once; several
      contenders are narrowed by the chain for their hand type (a royal
      flush tie first raises a draw of all contenders), and then every
      seated player's turn of the loop credits and reports the result. A
      narrowing step that throws fails the whole call before any counter
      changes. */
  function CompareHands(players: seq<Seat>): (r: Result<Round, Fault>)
    ensures r.Ok? ==> |r.value.players| == |players|
    ensures r.Ok? ==> forall i :: 0 <= i < |players| ==> r.value.players[i].hand == players[i].hand
    ensures |players| == 0 ==> r == Ok(Round(players, []))
  {
    var hands := HandsOf(players);
    var best := BestType(hands);
    var contenders := Contenders(hands);
    if |contenders| == 1 then
      assert contenders[0] in contenders;
      Ok(Round(Win(players, contenders[0]), [Winner(contenders[0])]))
    else if |contenders| > 1 then
      match Narrow(best, hands, contenders)
      case Err(e) => Err(e)
      case Ok(survivors) =>
        var royalDraw := if best == RoyalStraightFlush then [Draw(contenders)] else [];
        var loop := SeatLoop(players, survivors, |players|);
        Ok(Round(loop.players, royalDraw + loop.outcomes))
    else
      Ok(Round(players, []))
  }

  /** The seats left after narrowing (the lone contender, if only one). */
  function Survivors(players: seq<Seat>): (r: Result<seq<nat>, Fault>)
    ensures Narrowed(HandsOf(players), Contenders(HandsOf(players)), r)
  {
    var hands := HandsOf(players);
    var contenders := Contenders(hands);
    if |contenders| <= 1 then Ok(contenders)
    else Narrow(BestType(hands), hands, contenders)
  }

  /** An empty table: no counter changes and nothing is reported. */
  lemma NoPlayersNoChange()
    ensures CompareHands([]) == Ok(Round([], []))
  {
  }

  /** A single contender wins exactly once, is reported once, and no
      other seat changes. */
  lemma SoleContenderWins(players: seq<Seat>)
    requires |Contenders(HandsOf(players))| == 1
    ensures var w := Contenders(HandsOf(players))[0];
      && CompareHands(players).Ok?
      && CreditedOnly(players, CompareHands(players).value.players, w, 1)
      && CompareHands(players).value.outcomes == [Winner(w)]
  {
  }

  /** A seat whose hand type is strictly stronger than everyone else's
      wins the round, whatever the card ranks. */
  lemma StrictlyStrongerTypeWins(players: seq<Seat>, w: nat)
    requires w < |players|
    requires forall y :: 0 <= y < |players| && y != w ==>
      Strength(players[y].hand.handType) < Strength(players[w].hand.handType)
    ensures CompareHands(players).Ok?
    ensures CreditedOnly(players, CompareHands(players).value.players, w, 1)
    ensures CompareHands(players).value.outcomes == [Winner(w)]
  {
    ContendersHoldBestType(players);
    var c := Contenders(HandsOf(players));
    assert w in c;
    assert forall x :: x in c ==> x == w;
    assert c[0] in c && c[|c| - 1] in c;
    IncreasingSpread(c);
    assert c == [w];
  }

  /** When narrowing leaves several players, no counter changes and every
      notification is a draw of those players: one per seat, plus one
      for a royal flush tie. */
  lemma TieIsDraw(players: seq<Seat>)
    requires Survivors(players).Ok? && |Survivors(players).value| > 1
    ensures CompareHands(players).Ok?
    ensures CompareHands(players).value.players == players
    ensures forall o :: o in CompareHands(players).value.outcomes ==> o == Draw(Survivors(players).value)
    ensures |CompareHands(players).value.outcomes| ==
      |players| + if BestType(HandsOf(players)) == RoyalStraightFlush then 1 else 0
  {
    var s := Survivors(players).value;
    SeatLoopCredits(players, s, |players|);
  }

  /** When narrowing leaves one of several contenders, `Win()` runs once
      per seated player: that seat gains one win per seat at the table and
      is reported as winner that many times; no other seat changes. */
  lemma NarrowedWinnerCreditedPerSeat(players: seq<Seat>)
    requires |Contenders(HandsOf(players))| > 1
    requires Survivors(players).Ok? && |Survivors(players).value| == 1
    ensures var w := Survivors(players).value[0];
      && CompareHands(players).Ok?
      && CreditedOnly(players, CompareHands(players).value.players, w, |players|)
      && CompareHands(players).value.outcomes == seq(|players|, _ => Winner(w))
  {
    var s := Survivors(players).value;
    SeatLoopCredits(players, s, |players|);
    assert BestType(HandsOf(players)) != RoyalStraightFlush;
  }

  /** Royal flush contenders are never narrowed: a tie between them is a
      draw of all of them, raised once before the seat loop and once per
      seat in it. */
  lemma RoyalTieIsDraw(players: seq<Seat>)
    requires BestType(HandsOf(players)) == RoyalStraightFlush
    requires |Contenders(HandsOf(players))| > 1
    ensures var c := Contenders(HandsOf(players));
      && CompareHands(players) == Ok(Round(players, [Draw(c)] + seq(|players|, _ => Draw(c))))
  {
    var c := Contenders(HandsOf(players));
    SeatLoopCredits(players, c, |players|);
  }

  /** When every contender holds every key its chain compares, narrowing
      succeeds and keeps exactly the contenders whose keys are
      lexicographically greatest. */
  lemma SurvivorsAreLeaders(players: seq<Seat>)
    requires var hands := HandsOf(players);
      AllHoldAll(hands, Contenders(hands), NarrowingKeys(BestType(hands)))
    ensures var hands := HandsOf(players);
      var c := Contenders(hands);
      && Survivors(players).Ok?
      && forall x :: x in Survivors(players).value <==> x in c && Leader(hands, c, NarrowingKeys(BestType(hands)), x)
  {
    var hands := HandsOf(players);
    var c := Contenders(hands);
    var keys := NarrowingKeys(BestType(hands));
    if |c| > 1 {
      NarrowIsCascade(BestType(hands), hands, c);
      CascadeKeepsLeaders(hands, c, keys);
    } else if |c| == 1 {
      assert c[0] in c;
      AtMostReflexive(hands[c[0]], keys);
      assert c == [c[0]];
    }
  }

  /** The keys a consistent record of a category holds. */
  lemma ConsistentHoldsKeys(h: Evaluated)
    requires Consistent(h)
    ensures h.handType != ThreeOfAKind ==> HoldsAll(h, NarrowingKeys(h.handType))
    ensures h.handType == ThreeOfAKind ==> HoldsAll(h, [ThreeDuplicate] + RankKeys) && !HasKey(h, Duplicate(0))
  {
  }

  /** With consistent records the only way `CompareHands` throws is a
      ThreeOfAKind tie that survives `BestThreeDuplicate`: `BestDuplicate`
      then calls `First()` on an empty `DuplicateRank`. */
  lemma ConsistentTableFaultsOnlyOnTrips(players: seq<Seat>)
    requires forall i :: 0 <= i < |players| ==> Consistent(players[i].hand)
    ensures var hands := HandsOf(players);
      var c := Contenders(hands);
      && (CompareHands(players).Err? ==>
            BestType(hands) == ThreeOfAKind && CompareHands(players).error == MissingKey(Duplicate(0)))
      && (BestType(hands) == ThreeOfAKind && |c| > 1 ==>
            BestThreeDuplicate(hands, c).Ok?
            && (CompareHands(players).Err? <==> |BestThreeDuplicate(hands, c).value| > 1))
  {
    var hands := HandsOf(players);
    var c := Contenders(hands);
    var best := BestType(hands);
    ContendersHoldBestType(players);
    forall x | x in c
      ensures Consistent(hands[x]) && hands[x].handType == best
    {
    }
    if |c| > 1 {
      if best != ThreeOfAKind {
        forall x | x in c
          ensures HoldsAll(hands[x], NarrowingKeys(best))
        {
          ConsistentHoldsKeys(hands[x]);
        }
        NarrowIsCascade(best, hands, c);
        CascadeKeepsLeaders(hands, c, NarrowingKeys(best));
      } else {
        forall x | x in c
          ensures HasKey(hands[x], ThreeDuplicate) && |hands[x].cardRank| >= 5
        {
          ConsistentHoldsKeys(hands[x]);
        }
        BestByKeyKeepsLeaders(hands, c, ThreeDuplicate);
        var kept := BestThreeDuplicate(hands, c).value;
        if |kept| > 1 {
          assert kept[0] in kept;
          ConsistentHoldsKeys(hands[kept[0]]);
          BestByKeyFaultsOnMissingKey(hands, kept, Duplicate(0), kept[0]);
        }
      }
    }
  }

  // ---------------------------------------------------------------------
  // The per-seat loop, as intended

  function TotalWins(players: seq<Seat>): int
    decreases |players|
  {
    if |players| == 0 then 0 else players[0].wins + TotalWins(players[1..])
  }

  lemma {:induction false} CreditAddsToTotal(before: seq<Seat>, after: seq<Seat>, w: nat, k: int)
    requires CreditedOnly(before, after, w, k)
    ensures TotalWins(after) == TotalWins(before) + k
    decreases |before|
  {
    if w > 0 {
      assert CreditedOnly(before[1..], after[1..], w - 1, k);
      CreditAddsToTotal(before[1..], after[1..], w - 1, k);
    } else {
      assert after[1..] == before[1..];
    }
  }

  /** As written, a narrowed win adds one win per seated player to the
      table's total. */
  lemma NarrowedWinAddsSeatCount(players: seq<Seat>)
    requires |Contenders(HandsOf(players))| > 1
    requires Survivors(players).Ok? && |Survivors(players).value| == 1
    ensures CompareHands(players).Ok?
    ensures TotalWins(CompareHands(players).value.players) == TotalWins(players) + |players|
  {
    NarrowedWinnerCreditedPerSeat(players);
    CreditAddsToTotal(players, CompareHands(players).value.players, Survivors(players).value[0], |players|);
  }

  /** Two players, both HighCard, ranks A K Q J 4 against Q 9 8 7 4 (the
      hands of the library's FindBestCard test). */
  function SampleTable(): seq<Seat>
  {
    [Seat("Test1", 0, Evaluated(HighCard, [14, 13, 12, 11, 4], [], [], [])),
     Seat("Test2", 0, Evaluated(HighCard, [12, 9, 8, 7, 4], [], [], []))]
  }

  lemma SampleTableNarrowsToFirst()
    ensures Contenders(HandsOf(SampleTable())) == [0, 1]
    ensures BestType(HandsOf(SampleTable())) == HighCard
    ensures Survivors(SampleTable()) == Ok([0])
  {
    var hands := HandsOf(SampleTable());
    assert hands[0].handType == HighCard && hands[1].handType == HighCard;
    assert [] + [0] == [0] && [0] + [1] == [0, 1];
    assert Scan(hands, 1) == (HighCard, [0]);
    assert Scan(hands, 2) == (HighCard, [0, 1]);
    var c := [0, 1];
    assert KeyValue(hands[0], CardAt(0)) == 14 && KeyValue(hands[1], CardAt(0)) == 12;
    assert MaxKey(hands, c, CardAt(0)) == 14;
    assert KeepIf(hands, c, CardAt(0), 14) == [0];
    assert KeepBest(hands, c, CardAt(0)) == Ok([0]);
    assert Cascade(hands, c, RankKeys) == Ok([0]);
  }

  /** In that two-player round the first player wins the round alone, yet
      is credited twice. */
  lemma HighCardWinCreditedTwice()
    ensures CompareHands(SampleTable()).Ok?
    ensures CompareHands(SampleTable()).value.players[0].wins == 2
    ensures CompareHands(SampleTable()).value.players[1].wins == 0
    ensures CompareHands(SampleTable()).value.outcomes == [Winner(0), Winner(0)]
  {
    SampleTableNarrowsToFirst();
    NarrowedWinnerCreditedPerSeat(SampleTable());
  }

  /** `CompareHands` with the seat loop's evident intent: the result of
      narrowing is credited and reported once. */
  function CompareHandsIntended(players: seq<Seat>): (r: Result<Round, Fault>)
    ensures r.Ok? ==> |r.value.players| == |players| && |r.value.outcomes| <= 1
    ensures r.Ok? ==> forall i :: 0 <= i < |players| ==> r.value.players[i].hand == players[i].hand
  {
    match Survivors(players)
    case Err(e) => Err(e)
    case Ok(s) =>
      if |s| == 1 then
        assert s[0] in s;
        Ok(Round(Win(players, s[0]), [Winner(s[0])]))
      else if |s| > 1 then Ok(Round(players, [Draw(s)]))
      else Ok(Round(players, []))
  }

  /** The corrected comparison reaches the same verdict as the written one
      (same failures, same notifications up to repetition) and raises it
      once. A sole survivor gains exactly one win and no other seat
      changes; a draw or an empty table changes no counter. */
  lemma IntendedAwardsOneWin(players: seq<Seat>)
    ensures CompareHandsIntended(players).Ok? <==> CompareHands(players).Ok?
    ensures CompareHandsIntended(players).Err? ==> CompareHandsIntended(players) == CompareHands(players)
    ensures CompareHandsIntended(players).Ok? ==>
      var r := CompareHandsIntended(players).value;
      && (set o | o in r.outcomes) == (set o | o in CompareHands(players).value.outcomes)
      && |r.outcomes| == (if |players| == 0 then 0 else 1)
      && TotalWins(r.players) == TotalWins(players) + (if |Survivors(players).value| == 1 then 1 else 0)
    ensures Survivors(players).Ok? && |Survivors(players).value| == 1 ==>
      CreditedOnly(players, CompareHandsIntended(players).value.players, Survivors(players).value[0], 1)
    ensures Survivors(players).Ok? && |Survivors(players).value| != 1 ==>
      CompareHandsIntended(players).value.players == players
  {
    var c := Contenders(HandsOf(players));
    ContendersHoldBestType(players);
    match Survivors(players) {
      case Err(e) =>
      case Ok(s) =>
        var r := CompareHandsIntended(players).value;
        if |s| == 1 {
          assert s[0] in s;
          CreditAddsToTotal(players, r.players, s[0], 1);
          if |c| > 1 {
            NarrowedWinnerCreditedPerSeat(players);
            assert |players| > 0;
            assert CompareHands(players).value.outcomes[0] == Winner(s[0]);
          }
        } else if |s| > 1 {
          TieIsDraw(players);
          var o := CompareHands(players).value.outcomes;
          assert |o| > 0;
          assert o[0] == Draw(s);
        } else {
          assert |players| == 0;
        }
    }
  }
}
