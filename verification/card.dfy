/** Playing cards (PokerLib/Card.cs): an immutable (suit, rank) value with
    structural equality, null-aware equality operators and a short text
    rendering such as "♥A" or "♣10". */
module Cards {
  import opened Results

  datatype Suite = Hearts | Spades | Clubs | Diamonds

  /** Ranks carry their enum value: 2..10 for the pip ranks (rendered as
      that number), then Jack < Queen < King < Ace. */
  newtype Rank = v: int | 2 <= v <= 14 witness 2

  const Jack: Rank := 11
  const Queen: Rank := 12
  const King: Rank := 13
  const Ace: Rank := 14

  datatype Card = Card(suite: Suite, rank: Rank)

  /** The constructor `Card(suite, rank)`. */
  function NewCard(suite: Suite, rank: Rank): (c: Card)
    ensures c.suite == suite && c.rank == rank
  {
    Card(suite, rank)
  }

  /** The implicit conversion from a `(suite, rank)` tuple. */
  function FromTuple(t: (Suite, Rank)): (c: Card)
    ensures c.suite == t.0 && c.rank == t.1
  {
    NewCard(t.0, t.1)
  }

  // ---------------------------------------------------------------------
  // Equality

  /** What `Equals(object)` may be handed: null, a card, or an instance of
      some other class. */
  datatype Obj = Null | CardObj(card: Card) | OtherObj

  /** A variable of static type Card: null or a card. */
  datatype CardRef = NullRef | Ref(card: Card)

  function AsObj(r: CardRef): Obj
  {
    match r
    case NullRef => Null
    case Ref(c) => CardObj(c)
  }

  /** `Equals(object)`: false for null and for other run-time types,
      otherwise suit and rank are compared. */
  function Equals(self: Card, obj: Obj): (b: bool)
    ensures b <==> obj == CardObj(self)
  {
    if obj.Null? || !obj.CardObj? then false
    else self.suite == obj.card.suite && self.rank == obj.card.rank
  }

  /** `operator ==`: two nulls are equal, a null and a card are not, and
      otherwise `Equals` decides. */
  function Eq(lhs: CardRef, rhs: CardRef): (b: bool)
    ensures b <==> lhs == rhs
  {
    if lhs.NullRef? then rhs.NullRef?
    else Equals(lhs.card, AsObj(rhs))
  }

  /** `operator !=`. */
  function Neq(lhs: CardRef, rhs: CardRef): (b: bool)
    ensures b <==> lhs != rhs
  {
    !(Eq(lhs, rhs))
  }

  /** `Equals` between cards is an equivalence relation. */
  lemma EqualsIsEquivalence(a: Card, b: Card, c: Card)
    ensures Equals(a, CardObj(a))
    ensures Equals(a, CardObj(b)) <==> Equals(b, CardObj(a))
    ensures Equals(a, CardObj(b)) && Equals(b, CardObj(c)) ==> Equals(a, CardObj(c))
    ensures !Equals(a, Null) && !Equals(a, OtherObj)
  {
  }

  // ---------------------------------------------------------------------
  // Text rendering

  function SuiteSymbol(s: Suite): char
  {
    match s
    case Hearts => '♥'
    case Spades => '♠'
    case Clubs => '♣'
    case Diamonds => '♦'
  }

  predicate IsDigit(c: char)
  {
    '0' <= c <= '9'
  }

  predicate AllDigits(s: string)
  {
    forall i :: 0 <= i < |s| ==> IsDigit(s[i])
  }

  function Digit(d: nat): (c: char)
    requires d < 10
    ensures IsDigit(c)
  {
    (d + '0' as int) as char
  }

  function DigitValue(c: char): (d: nat)
    requires IsDigit(c)
    ensures d < 10
  {
    c as int - '0' as int
  }

  /** Decimal notation of a natural number, as `int.ToString()` writes it. */
  function Decimal(n: nat): (s: string)
    ensures |s| > 0 && AllDigits(s)
    ensures n > 0 ==> s[0] != '0'
    ensures |s| == 1 <==> n < 10
    decreases n
  {
    if n < 10 then [Digit(n)]
    else Decimal(n / 10) + [Digit(n % 10)]
  }

  /** The number a string of decimal digits denotes. */
  function DigitsValue(s: string): nat
    requires AllDigits(s)
    decreases |s|
  {
    if |s| == 0 then 0
    else DigitsValue(s[..|s| - 1]) * 10 + DigitValue(s[|s| - 1])
  }

  /** Reading back the decimal notation gives the number. */
  lemma {:induction false} DecimalRoundTrip(n: nat)
    ensures DigitsValue(Decimal(n)) == n
    decreases n
  {
    if n >= 10 {
      DecimalRoundTrip(n / 10);
      var s := Decimal(n);
      assert s[..|s| - 1] == Decimal(n / 10);
    }
  }

  function RankText(r: Rank): string
  {
    if r == Ace then "A"
    else if r == King then "K"
    else if r == Queen then "Q"
    else if r == Jack then "J"
    else Decimal(r as nat)
  }

  /** `ToString()`: the suit symbol followed by the rank text. */
  function ToString(c: Card): (s: string)
    ensures 2 <= |s| <= 3
  {
    [SuiteSymbol(c.suite)] + RankText(c.rank)
  }

  function SuiteOfSymbol(ch: char): Option<Suite>
  {
    if ch == '♥' then Some(Hearts)
    else if ch == '♠' then Some(Spades)
    else if ch == '♣' then Some(Clubs)
    else if ch == '♦' then Some(Diamonds)
    else None
  }

  function RankOfText(s: string): Option<Rank>
  {
    if s == "A" then Some(Ace)
    else if s == "K" then Some(King)
    else if s == "Q" then Some(Queen)
    else if s == "J" then Some(Jack)
    else if |s| > 0 && AllDigits(s) && 2 <= DigitsValue(s) <= 10 then Some(DigitsValue(s) as Rank)
    else None
  }

  /** Reads a rendering such as "♣10" back into a card. */
  function Parse(s: string): Option<Card>
  {
    if |s| == 0 then None
    else match SuiteOfSymbol(s[0])
      case None => None
      case Some(suite) =>
        match RankOfText(s[1..])
        case None => None
        case Some(rank) => Some(Card(suite, rank))
  }

  /** The rendering starts with the suit symbol (♦ for the remaining
      suit), and the rank part is a face letter or the rank's decimal
      value without leading zeros: one digit below 10, "10" for ten. */
  lemma ToStringShape(c: Card)
    ensures var s := ToString(c);
      && |s| >= 2
      && s[0] == (if c.suite == Hearts then '♥' else if c.suite == Spades then '♠'
                  else if c.suite == Clubs then '♣' else '♦')
      && (c.rank == Ace ==> s[1..] == "A")
      && (c.rank == King ==> s[1..] == "K")
      && (c.rank == Queen ==> s[1..] == "Q")
      && (c.rank == Jack ==> s[1..] == "J")
      && (c.rank <= 10 ==> AllDigits(s[1..]) && DigitsValue(s[1..]) == c.rank as int && s[1] != '0')
      && (c.rank <= 9 ==> |s| == 2)
      && (c.rank == 10 ==> s[1..] == "10")
  {
    var s := ToString(c);
    assert s[1..] == RankText(c.rank);
    if c.rank <= 10 {
      DecimalRoundTrip(c.rank as nat);
    }
  }

  /** The rendering can be read back: it is a faithful serialisation. */
  lemma ToStringParses(c: Card)
    ensures Parse(ToString(c)) == Some(c)
  {
    var s := ToString(c);
    assert s[0] == SuiteSymbol(c.suite);
    assert s[1..] == RankText(c.rank);
    if c.rank <= 10 {
      var t := Decimal(c.rank as nat);
      DecimalRoundTrip(c.rank as nat);
      assert IsDigit(t[0]);
      assert t != "A" && t != "K" && t != "Q" && t != "J";
      assert RankOfText(t) == Some(c.rank);
    } else {
      assert RankOfText(s[1..]) == Some(c.rank);
    }
    assert SuiteOfSymbol(s[0]) == Some(c.suite);
  }

  /** Two cards render to the same text exactly when they are `Equals`. */
  lemma ToStringInjective(a: Card, b: Card)
    ensures ToString(a) == ToString(b) <==> Equals(a, CardObj(b))
  {
    ToStringParses(a);
    ToStringParses(b);
  }

  /** The renderings the library's tests spell out. */
  lemma ToStringExamples()
    ensures ToString(Card(Clubs, 10)) == "♣10"
    ensures ToString(Card(Hearts, 4)) == "♥4"
    ensures ToString(Card(Spades, Ace)) == "♠A"
    ensures ToString(Card(Diamonds, Queen)) == "♦Q"
  {
    assert Decimal(10) == "10";
  }
}
