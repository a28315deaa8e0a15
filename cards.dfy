/** Playing-card values of package deck: suits, ranks, cards, and the absolute
    rank that puts a deck in suit-major, rank-minor order. */
module Cards {

  /** Suit, in declaration order. Joker is a sentinel, not a playable suit. */
  datatype Suit = Spade | Diamond | Club | Heart | Joker

  /** The four playable suits, in the order the standard deck lists them. */
  const Suits: seq<Suit> := [Spade, Diamond, Club, Heart]

  /** The integer value of a suit (its iota position, Spade = 0 ... Joker = 4). */
  function SuitIndex(s: Suit): (i: nat)
    ensures i < 5
    ensures s == Joker <==> i == 4
    ensures s != Joker ==> Suits[i] == s
  {
    match s
    case Spade => 0
    case Diamond => 1
    case Club => 2
    case Heart => 3
    case Joker => 4
  }

  /** Rank is an 8-bit signed integer; its named values are Ace (1) to King (13),
      and jokers use it as a free tag. */
  newtype Rank = r: int | -128 <= r < 128

  const Ace: Rank := 1
  const Two: Rank := 2
  const Three: Rank := 3
  const Four: Rank := 4
  const Five: Rank := 5
  const Six: Rank := 6
  const Seven: Rank := 7
  const Eight: Rank := 8
  const Nine: Rank := 9
  const Ten: Rank := 10
  const Jack: Rank := 11
  const Queen: Rank := 12
  const King: Rank := 13

  const MinRank: Rank := Ace
  const MaxRank: Rank := King

  /** The conversion Rank(i) of a Go int: two's-complement truncation to 8 bits. */
  function ToRank(i: int): (r: Rank)
    ensures -128 <= i < 128 ==> r as int == i
    ensures (r as int - i) % 256 == 0
  {
    ((i + 128) % 256 - 128) as Rank
  }

  datatype Card = Card(suit: Suit, rank: Rank)

  /** A playable card: one of the four suits with a rank from Ace to King. */
  predicate IsPlayable(c: Card) {
    c.suit != Joker && MinRank <= c.rank <= MaxRank
  }

  /** absRank: suit * 13 + rank, the key of the default order. */
  function AbsRank(c: Card): (k: int)
    ensures IsPlayable(c) ==> 1 <= k <= 52
  {
    SuitIndex(c.suit) * (MaxRank as int) + c.rank as int
  }

  /** On playable cards absRank orders by suit first, then by rank. */
  lemma AbsRankIsSuitMajor(a: Card, b: Card)
    requires IsPlayable(a) && IsPlayable(b)
    ensures AbsRank(a) < AbsRank(b) <==>
              SuitIndex(a.suit) < SuitIndex(b.suit) ||
              (a.suit == b.suit && a.rank < b.rank)
  {
  }

  /** On playable cards absRank is injective: equal keys mean equal cards. */
  lemma AbsRankInjective(a: Card, b: Card)
    requires IsPlayable(a) && IsPlayable(b)
    requires AbsRank(a) == AbsRank(b)
    ensures a == b
  {
  }

  /** Once jokers are present the key is no longer injective: the Joker tagged 0
      and the King of Hearts share absRank 52. */
  lemma AbsRankJokerCollision()
    ensures AbsRank(Card(Joker, 0)) == AbsRank(Card(Heart, King)) == 52
    ensures Card(Joker, 0) != Card(Heart, King)
  {
  }

  /** Card.String, given the names Suit.String and Rank.String produce: a joker
      prints as its suit name alone, any other card as "<rank> of <suit>s". */
  function CardString(c: Card, suitName: Suit -> string, rankName: Rank -> string): (s: string)
    ensures c.suit == Joker ==> s == suitName(Joker)
    ensures c.suit != Joker ==>
              var name := rankName(c.rank);
              && |s| >= |name| + 5
              && s[..|name|] == name
              && s[|name|..|name| + 4] == " of "
              && s[|name| + 4..|s| - 1] == suitName(c.suit)
              && s[|s| - 1] == 's'
  {
    if c.suit == Joker then suitName(c.suit)
    else rankName(c.rank) + " of " + suitName(c.suit) + "s"
  }

  /** The joker's printed form does not depend on its tag. */
  lemma CardStringIgnoresJokerTag(t: Rank, u: Rank, suitName: Suit -> string, rankName: Rank -> string)
    ensures CardString(Card(Joker, t), suitName, rankName) == CardString(Card(Joker, u), suitName, rankName)
            == suitName(Joker)
  {
  }

  /** A card of a playable suit prints as its rank name, " of ", its suit name and "s". */
  lemma NonJokerString(c: Card, suitName: Suit -> string, rankName: Rank -> string)
    requires c.suit != Joker
    ensures CardString(c, suitName, rankName) == rankName(c.rank) + " of " + suitName(c.suit) + "s"
  {
  }

  /** With names equal to the constants' identifiers, the printed forms are
      "Ace of Hearts", "Two of Clubs", "Jack of Diamonds", "King of Spades" and "Joker". */
  lemma CardStringExamples(suitName: Suit -> string, rankName: Rank -> string)
    requires suitName(Spade) == "Spade" && suitName(Diamond) == "Diamond"
    requires suitName(Club) == "Club" && suitName(Heart) == "Heart" && suitName(Joker) == "Joker"
    requires rankName(Ace) == "Ace" && rankName(Two) == "Two"
    requires rankName(Jack) == "Jack" && rankName(King) == "King"
    ensures CardString(Card(Heart, Ace), suitName, rankName) == "Ace of Hearts"
    ensures CardString(Card(Club, Two), suitName, rankName) == "Two of Clubs"
    ensures CardString(Card(Diamond, Jack), suitName, rankName) == "Jack of Diamonds"
    ensures CardString(Card(Spade, King), suitName, rankName) == "King of Spades"
    ensures CardString(Card(Joker, 0), suitName, rankName) == "Joker"
  {
    NonJokerString(Card(Heart, Ace), suitName, rankName);
    NonJokerString(Card(Club, Two), suitName, rankName);
    NonJokerString(Card(Diamond, Jack), suitName, rankName);
    NonJokerString(Card(Spade, King), suitName, rankName);
  }
}
