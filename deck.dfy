/** Package deck: builds the standard 52-card deck and passes it through the
    caller's options, each a transformation from deck to deck, in order.

    Every option is a function value, so that New can fold any list of options
    over the base deck. The closures of Jokers, Filter and Deck are loops over
    the deck; each is modelled by a method (AddJokers, FilterOut, Repeat) proved
    equal to a function (WithJokers, Without, Repeated), and the option is that
    function as a value. The Sort and DefaultSort options are the functional
    sort SortBy, which agrees with the in-place sort up to the order of cards
    with equal keys; the Shuffle option is the reindexing Permuted. */
module Deck {
  import opened Cards
  import opened Sorting
  import opened Shuffling

  /** An option of New: a transformation from deck to deck. */
  type DeckOption = seq<Card> -> seq<Card>

  // ---------------------------------------------------------------------------
  // The base deck and New

  /** The base deck: Spades, Diamonds, Clubs, Hearts in that order, each from Ace to King. */
  function Standard(): (r: seq<Card>)
    ensures |r| == 52
  {
    seq(52, i requires 0 <= i < 52 => Card(Suits[i / 13], (i % 13 + 1) as Rank))
  }

  /** The card of suit number s and rank r sits at position 13 * s + (r - 1). */
  lemma StandardAt(s: nat, r: Rank)
    requires s < 4 && Ace <= r <= King
    ensures Standard()[13 * s + r as int - 1] == Card(Suits[s], r)
  {
  }

  /** Along the base deck every card is playable and the absolute rank of the card
      at position i is i + 1: it climbs strictly from 1 (Ace of Spades) to 52
      (King of Hearts), so the base deck is already in the default order. */
  lemma StandardAbsRank()
    ensures forall i :: 0 <= i < 52 ==> IsPlayable(Standard()[i]) && AbsRank(Standard()[i]) == i + 1
    ensures SortedBy(AbsRank, Standard())
    ensures Standard()[0] == Card(Spade, Ace) && Standard()[51] == Card(Heart, King)
  {
  }

  /** Every playable card occurs in the base deck exactly once, and no other card occurs. */
  lemma StandardHasEachCardOnce(c: Card)
    ensures multiset(Standard())[c] == if IsPlayable(c) then 1 else 0
  {
    var d := Standard();
    StandardAbsRank();
    if IsPlayable(c) {
      var k := 13 * SuitIndex(c.suit) + c.rank as int - 1;
      StandardAt(SuitIndex(c.suit), c.rank);
      forall i | 0 <= i < 52 && d[i] == c ensures i == k {
        assert AbsRank(d[i]) == AbsRank(c);
      }
      OccursOnlyAt(d, c, k);
    } else {
      assert c !in d;
    }
  }

  /** A card found at position k and nowhere else has multiplicity one. */
  lemma OccursOnlyAt(s: seq<Card>, c: Card, k: nat)
    requires k < |s| && s[k] == c
    requires forall i :: 0 <= i < |s| && s[i] == c ==> i == k
    ensures multiset(s)[c] == 1
  {
    var before, after := s[..k], s[k + 1..];
    assert s == before + [c] + after;
    assert c !in before;
    forall i | 0 <= i < |after| ensures after[i] != c {
      assert after[i] == s[k + 1 + i];
    }
    assert c !in after;
  }

  /** The options applied from left to right, each to the result of the previous one.
      When every option only rearranges its deck, so does the whole pipeline. */
  function Pipeline(opts: seq<DeckOption>, cards: seq<Card>): (r: seq<Card>)
    ensures (forall o, d :: o in opts ==> multiset(o(d)) == multiset(d)) ==> multiset(r) == multiset(cards)
    decreases |opts|
  {
    if opts == [] then cards
    else opts[|opts| - 1](Pipeline(opts[..|opts| - 1], cards))
  }

  /** Running two lists of options one after the other is running their concatenation. */
  lemma {:induction false} PipelineConcat(first: seq<DeckOption>, after: seq<DeckOption>, cards: seq<Card>)
    ensures Pipeline(first + after, cards) == Pipeline(after, Pipeline(first, cards))
    decreases |after|
  {
    if after == [] {
      assert first + after == first;
    } else {
      var init := after[..|after| - 1];
      assert (first + after)[..|first + after| - 1] == first + init;
      PipelineConcat(first, init, cards);
    }
  }

  /** The first option sees the deck itself, and the rest see its result:
      New(o1, ..., ok) is ok(... o1(base)). */
  lemma PipelineAppliesFirstOptionFirst(o: DeckOption, rest: seq<DeckOption>, cards: seq<Card>)
    ensures Pipeline([o], cards) == o(cards)
    ensures Pipeline([o] + rest, cards) == Pipeline(rest, o(cards))
  {
    assert [o][..0] == [];
    PipelineConcat([o], rest, cards);
  }

  /** New: builds the base deck suit by suit, rank by rank, then applies the options in order. */
  method New(opts: seq<DeckOption>) returns (cards: seq<Card>)
    ensures cards == Pipeline(opts, Standard())
    ensures opts == [] ==> cards == Standard()
  {
    cards := [];
    for s := 0 to |Suits|
      invariant cards == Standard()[..13 * s]
    {
      var rank := MinRank;
      while rank <= MaxRank
        invariant MinRank <= rank <= MaxRank + 1
        invariant cards == Standard()[..13 * s + rank as int - 1]
      {
        StandardAt(s, rank);
        cards := cards + [Card(Suits[s], rank)];
        rank := rank + 1;
      }
    }
    assert cards == Standard();
    for k := 0 to |opts|
      invariant cards == Pipeline(opts[..k], Standard())
    {
      assert opts[..k + 1][..k] == opts[..k];
      cards := opts[k](cards);
    }
    assert opts[..|opts|] == opts;
  }

  // ---------------------------------------------------------------------------
  // Sorting options

  /** Sort(less) for a comparator less(cards)(i, j) = key(cards[i]) < key(cards[j]):
      returns every deck sorted by key, as a permutation of itself. */
  function Sort(key: Card -> int): (o: DeckOption)
    ensures forall cards :: SortedBy(key, o(cards)) && multiset(o(cards)) == multiset(cards)
  {
    cards => SortBy(key, cards)
  }

  /** DefaultSort as an option: sorts by absolute rank, the order of Sort(Less). */
  function DefaultSortOption(): (o: DeckOption)
    ensures forall cards :: SortedBy(AbsRank, o(cards)) && multiset(o(cards)) == multiset(cards)
  {
    Sort(AbsRank)
  }

  /** A deck sorted by absolute rank that holds the cards of the base deck is the
      base deck: whatever order a sort picks, on the base deck it is the one order. */
  lemma SortedStandardIsStandard(s: seq<Card>)
    requires SortedBy(AbsRank, s)
    requires multiset(s) == multiset(Standard())
    ensures s == Standard()
  {
    var d := Standard();
    StandardAbsRank();
    SortedPermutationsAgreeOnKeys(AbsRank, s, d);
    forall i | 0 <= i < |s| ensures s[i] == d[i] {
      assert AbsRank(s[i]) == AbsRank(d[i]) == i + 1;
      assert s[i] in multiset(d);
      var m :| 0 <= m < |d| && d[m] == s[i];
    }
  }

  /** New(DefaultSort) and New(Sort(Less)) start with the Ace of Spades and end
      with the King of Hearts, for any sort that returns a sorted permutation. */
  lemma NewSortedStartsWithAceOfSpades(sort: DeckOption)
    requires forall cards :: SortedBy(AbsRank, sort(cards)) && multiset(sort(cards)) == multiset(cards)
    ensures |Pipeline([sort], Standard())| == 52
    ensures Pipeline([sort], Standard())[0] == Card(Spade, Ace)
    ensures Pipeline([sort], Standard())[51] == Card(Heart, King)
  {
    PipelineAppliesFirstOptionFirst(sort, [], Standard());
    SortedStandardIsStandard(sort(Standard()));
    StandardAbsRank();
  }

  /** The package's own sort option meets that requirement (its contract), and so
      it leaves the base deck as it is. */
  lemma DefaultSortKeepsStandard()
    ensures DefaultSortOption()(Standard()) == Standard()
  {
    SortedStandardIsStandard(DefaultSortOption()(Standard()));
  }

  /** The in-place DefaultSort and the DefaultSort option agree up to the order of
      cards with equal keys: any sorted permutation t of a deck s, such as the
      array DefaultSort leaves, has at every position the absolute rank that the
      option's result has there. */
  lemma DefaultSortAgreesWithOption(s: seq<Card>, t: seq<Card>)
    requires SortedBy(AbsRank, t) && multiset(t) == multiset(s)
    ensures |t| == |s| == |DefaultSortOption()(s)|
    ensures forall i :: 0 <= i < |t| ==> AbsRank(t[i]) == AbsRank(DefaultSortOption()(s)[i])
  {
    var u := DefaultSortOption()(s);
    assert |t| == |multiset(t)| == |multiset(s)| == |s|;
    assert |u| == |multiset(u)| == |multiset(s)|;
    SortedPermutationsAgreeOnKeys(AbsRank, t, u);
  }

  /** The DefaultSort option meets the postcondition sort.Slice gives for Less:
      no card of the result is Less than a card before it. */
  lemma DefaultSortOptionRespectsLess(s: seq<Card>)
    ensures var r := DefaultSortOption()(s);
            forall i, j :: 0 <= i < j < |r| ==> !Less(r, j, i)
  {
  }

  // ---------------------------------------------------------------------------
  // Shuffle as an option

  /** A source of permutations: for every length n, a permutation of [0, n). */
  type PermSource = src: nat -> seq<int> | forall n :: IsPermutation(src(n), n) witness Iota

  /** Shuffle as an option, drawing its permutation from src: it returns every
      deck rearranged, each card as often as before. */
  function ShuffleWith(src: PermSource): (o: DeckOption)
    ensures forall cards :: |o(cards)| == |cards| && multiset(o(cards)) == multiset(cards)
  {
    assert forall cards :: multiset(Permuted(cards, src(|cards|))) == multiset(cards) by {
      forall cards ensures multiset(Permuted(cards, src(|cards|))) == multiset(cards) {
        PermutedIsRearrangement(cards, src(|cards|));
      }
    }
    cards => Permuted(cards, src(|cards|))
  }

  /** New(Shuffle) holds the 52 cards of the base deck, each once, in the order src gives. */
  lemma NewShuffledIsRearrangement(src: PermSource)
    ensures |Pipeline([ShuffleWith(src)], Standard())| == 52
    ensures multiset(Pipeline([ShuffleWith(src)], Standard())) == multiset(Standard())
  {
    PipelineAppliesFirstOptionFirst(ShuffleWith(src), [], Standard());
  }

  // ---------------------------------------------------------------------------
  // Jokers

  /** The deck followed by n jokers tagged Rank(0), ..., Rank(n - 1). */
  function WithJokers(n: int, cards: seq<Card>): (r: seq<Card>)
    ensures |r| == |cards| + (if n > 0 then n else 0)
    ensures r[..|cards|] == cards
    ensures forall i :: 0 <= i < n ==> r[|cards| + i] == Card(Joker, ToRank(i))
    decreases n
  {
    if n <= 0 then cards
    else WithJokers(n - 1, cards) + [Card(Joker, ToRank(n - 1))]
  }

  /** The body of Jokers(n): appends the jokers one at a time. */
  method AddJokers(n: int, cards: seq<Card>) returns (ret: seq<Card>)
    ensures ret == WithJokers(n, cards)
  {
    ret := cards;
    var i := 0;
    while i < n
      invariant 0 <= i && (i <= n || i == 0)
      invariant ret == WithJokers(i, cards)
    {
      ret := ret + [Card(Joker, ToRank(i))];
      i := i + 1;
    }
  }

  /** Jokers(n) as an option: it keeps every deck as its prefix and adds
      max(n, 0) cards, all of them jokers. */
  function Jokers(n: int): (o: DeckOption)
    ensures forall cards :: |o(cards)| == |cards| + (if n > 0 then n else 0) && o(cards)[..|cards|] == cards
    ensures forall cards :: JokerCount(o(cards)) == JokerCount(cards) + (if n > 0 then n else 0)
  {
    assert forall cards :: JokerCount(WithJokers(n, cards)) == JokerCount(cards) + (if n > 0 then n else 0) by {
      forall cards ensures JokerCount(WithJokers(n, cards)) == JokerCount(cards) + (if n > 0 then n else 0) {
        WithJokersCount(n, cards);
      }
    }
    cards => WithJokers(n, cards)
  }

  /** A joker card, whatever its tag. */
  predicate IsJoker(c: Card) {
    c.suit == Joker
  }

  /** The number of joker cards in a deck. */
  function JokerCount(cards: seq<Card>): nat {
    CountWhere(IsJoker, cards)
  }

  /** Jokers(n) adds exactly max(n, 0) jokers. */
  lemma {:induction false} WithJokersCount(n: int, cards: seq<Card>)
    ensures JokerCount(WithJokers(n, cards)) == JokerCount(cards) + (if n > 0 then n else 0)
    decreases n
  {
    if n > 0 {
      var r := WithJokers(n, cards);
      assert r[..|r| - 1] == WithJokers(n - 1, cards);
      WithJokersCount(n - 1, cards);
    }
  }

  /** The base deck holds no joker. */
  lemma {:induction false} StandardHasNoJokers()
    ensures JokerCount(Standard()) == 0
  {
    StandardAbsRank();
    NoJokersCountZero(Standard());
  }

  lemma {:induction false} NoJokersCountZero(cards: seq<Card>)
    requires forall i :: 0 <= i < |cards| ==> cards[i].suit != Joker
    ensures JokerCount(cards) == 0
    decreases |cards|
  {
    if cards != [] {
      NoJokersCountZero(cards[..|cards| - 1]);
    }
  }

  /** New(Jokers(n)) holds exactly max(n, 0) jokers. */
  lemma NewWithJokersCount(n: int)
    ensures JokerCount(Pipeline([Jokers(n)], Standard())) == if n > 0 then n else 0
  {
    PipelineAppliesFirstOptionFirst(Jokers(n), [], Standard());
    WithJokersCount(n, Standard());
    StandardHasNoJokers();
  }

  /** Joker tags are distinct while n <= 256. */
  lemma JokerTagsDistinct(n: int, cards: seq<Card>)
    requires n <= 256
    ensures var r := WithJokers(n, cards);
            forall p, q :: |cards| <= p < q < |r| ==> r[p] != r[q]
  {
    var r := WithJokers(n, cards);
    forall p, q | |cards| <= p < q < |r| ensures r[p] != r[q] {
      var i, j := p - |cards|, q - |cards|;
      assert r[p] == Card(Joker, ToRank(i)) && r[q] == Card(Joker, ToRank(j));
      ToRankInjective(i, j);
    }
  }

  /** Rank(i) wraps at 8 bits: with n > 256 the joker tagged Rank(256) equals
      the one tagged Rank(0). */
  lemma JokerTagsWrap(n: int, cards: seq<Card>)
    requires n > 256
    ensures WithJokers(n, cards)[|cards| + 256] == WithJokers(n, cards)[|cards|]
  {
    assert ToRank(256) == ToRank(0);
  }

  /** Rank(i) keeps apart the values 0 .. 255. */
  lemma ToRankInjective(i: int, j: int)
    requires 0 <= i < j < 256
    ensures ToRank(i) != ToRank(j)
  {
  }

  // ---------------------------------------------------------------------------
  // Filter

  /** The number of cards of the deck that satisfy f. */
  function CountWhere(f: Card -> bool, cards: seq<Card>): nat {
    if cards == [] then 0
    else CountWhere(f, cards[..|cards| - 1]) + (if f(cards[|cards| - 1]) then 1 else 0)
  }

  /** The cards of the deck for which f is false, in their original order: no
      card of the result satisfies f, and the result is no longer than the deck. */
  function Without(f: Card -> bool, cards: seq<Card>): (r: seq<Card>)
    ensures |r| <= |cards|
    ensures forall k :: 0 <= k < |r| ==> !f(r[k])
    decreases |cards|
  {
    if cards == [] then []
    else
      var last := cards[|cards| - 1];
      Without(f, cards[..|cards| - 1]) + (if f(last) then [] else [last])
  }

  /** Filter(f) keeps exactly the cards for which f is false, each as often as
      in the input, and drops the CountWhere(f, cards) others. */
  lemma {:induction false} WithoutKeepsExactlyUnmatched(f: Card -> bool, cards: seq<Card>)
    ensures forall c :: multiset(Without(f, cards))[c] == if f(c) then 0 else multiset(cards)[c]
    ensures |Without(f, cards)| == |cards| - CountWhere(f, cards)
    decreases |cards|
  {
    if cards != [] {
      var init, last := cards[..|cards| - 1], cards[|cards| - 1];
      assert cards == init + [last];
      WithoutKeepsExactlyUnmatched(f, init);
    }
  }

  /** The body of Filter(f): keeps each card for which f is false. */
  method FilterOut(f: Card -> bool, cards: seq<Card>) returns (ret: seq<Card>)
    ensures ret == Without(f, cards)
  {
    ret := [];
    for k := 0 to |cards|
      invariant ret == Without(f, cards[..k])
    {
      assert cards[..k + 1][..k] == cards[..k];
      if !f(cards[k]) {
        ret := ret + [cards[k]];
      }
    }
    assert cards[..|cards|] == cards;
  }

  /** Filter(f) as an option: it returns every deck without the cards matching f,
      keeping each other card as often as before. */
  function Filter(f: Card -> bool): (o: DeckOption)
    ensures forall cards, c :: multiset(o(cards))[c] == if f(c) then 0 else multiset(cards)[c]
    ensures forall cards :: |o(cards)| == |cards| - CountWhere(f, cards)
  {
    assert forall cards, c :: multiset(Without(f, cards))[c] == if f(c) then 0 else multiset(cards)[c] by {
      forall cards ensures forall c :: multiset(Without(f, cards))[c] == if f(c) then 0 else multiset(cards)[c] {
        WithoutKeepsExactlyUnmatched(f, cards);
      }
    }
    assert forall cards :: |Without(f, cards)| == |cards| - CountWhere(f, cards) by {
      forall cards ensures |Without(f, cards)| == |cards| - CountWhere(f, cards) {
        WithoutKeepsExactlyUnmatched(f, cards);
      }
    }
    cards => Without(f, cards)
  }

  /** Filtering a concatenation filters each part and keeps them in order:
      the relative order of the kept cards is the input's. */
  lemma {:induction false} WithoutDistributes(f: Card -> bool, a: seq<Card>, b: seq<Card>)
    ensures Without(f, a + b) == Without(f, a) + Without(f, b)
    decreases |b|
  {
    if b == [] {
      assert a + b == a;
    } else {
      var init, last := b[..|b| - 1], b[|b| - 1];
      var ab := a + b;
      assert ab[..|ab| - 1] == a + init;
      assert ab[|ab| - 1] == last;
      var tail := if f(last) then [] else [last];
      WithoutDistributes(f, a, init);
      calc {
        Without(f, ab);
        Without(f, a + init) + tail;
        Without(f, a) + Without(f, init) + tail;
        Without(f, a) + Without(f, b);
      }
    }
  }

  /** A deck with no card matching f comes through unchanged. */
  lemma {:induction false} WithoutKeepsUnmatched(f: Card -> bool, cards: seq<Card>)
    requires forall k :: 0 <= k < |cards| ==> !f(cards[k])
    ensures Without(f, cards) == cards
    decreases |cards|
  {
    if cards != [] {
      WithoutKeepsUnmatched(f, cards[..|cards| - 1]);
    }
  }

  /** Filtering twice by the same predicate is filtering once. */
  lemma FilterIsIdempotent(f: Card -> bool, cards: seq<Card>)
    ensures Without(f, Without(f, cards)) == Without(f, cards)
  {
    WithoutKeepsUnmatched(f, Without(f, cards));
  }

  /** New(Filter(f)) holds no card satisfying f, and every playable card not satisfying f. */
  lemma NewFilteredExcludesMatches(f: Card -> bool)
    ensures forall c :: c in Pipeline([Filter(f)], Standard()) ==> !f(c)
    ensures forall c :: IsPlayable(c) && !f(c) ==> c in Pipeline([Filter(f)], Standard())
  {
    PipelineAppliesFirstOptionFirst(Filter(f), [], Standard());
    var r := Without(f, Standard());
    WithoutKeepsExactlyUnmatched(f, Standard());
    forall c | IsPlayable(c) && !f(c) ensures c in r {
      StandardHasEachCardOnce(c);
      assert multiset(r)[c] == 1;
    }
  }

  // ---------------------------------------------------------------------------
  // Deck(n): repetition

  /** n copies of the deck, back to back; none when n <= 0. */
  function Repeated(n: int, cards: seq<Card>): (r: seq<Card>)
    ensures |r| == if n > 0 then n * |cards| else 0
    decreases n
  {
    if n <= 0 then []
    else Repeated(n - 1, cards) + cards
  }

  /** The body of Deck(n): appends the whole deck n times. */
  method Repeat(n: int, cards: seq<Card>) returns (ret: seq<Card>)
    ensures ret == Repeated(n, cards)
  {
    ret := [];
    var i := 0;
    while i < n
      invariant 0 <= i && (i <= n || i == 0)
      invariant ret == Repeated(i, cards)
    {
      ret := ret + cards;
      i := i + 1;
    }
  }

  /** Deck(n) as an option: it returns n copies of every deck, so that position k
      holds the deck's card k mod len, and nothing when n <= 0. */
  function Deck(n: int): (o: DeckOption)
    ensures forall cards :: |o(cards)| == if n > 0 then n * |cards| else 0
    ensures forall cards, k :: 0 <= k < |o(cards)| ==> o(cards)[k] == cards[k % |cards|]
  {
    assert forall cards, k :: 0 <= k < |Repeated(n, cards)| ==> Repeated(n, cards)[k] == cards[k % |cards|] by {
      forall cards, k | 0 <= k < |Repeated(n, cards)| ensures Repeated(n, cards)[k] == cards[k % |cards|] {
        RepeatedAt(n, cards, k);
      }
    }
    cards => Repeated(n, cards)
  }

  /** Copy number i of Deck(n) is the deck itself: position i * len + j holds cards[j]. */
  lemma {:induction false} RepeatedCopies(n: int, cards: seq<Card>, i: nat, j: nat)
    requires i < n && j < |cards|
    ensures i * |cards| + j < |Repeated(n, cards)|
    ensures Repeated(n, cards)[i * |cards| + j] == cards[j]
    decreases n
  {
    var m := |cards|;
    assert i * m + j < (i + 1) * m <= n * m;
    if i < n - 1 {
      assert (i + 1) * m <= (n - 1) * m;
      RepeatedCopies(n - 1, cards, i, j);
    } else {
      assert i * m == (n - 1) * m;
    }
  }

  /** Position k of Deck(n) holds cards[k mod len]. */
  lemma RepeatedAt(n: int, cards: seq<Card>, k: nat)
    requires k < |Repeated(n, cards)|
    ensures Repeated(n, cards)[k] == cards[k % |cards|]
  {
    var q := CopyIndex(k, |cards|, n);
    RepeatedCopies(n, cards, q, k % |cards|);
  }

  /** Position k below n * m lies in copy k / m, which is below n, at offset k mod m. */
  lemma CopyIndex(k: nat, m: int, n: int) returns (q: nat)
    requires k < n * m && 0 < m
    ensures q == k / m && q < n && k == q * m + k % m
  {
    q := k / m;
  }

  /** New(Deck(n)) holds 52 * n cards when n > 0 (156 for Deck(3)), none otherwise. */
  lemma NewRepeatedLength(n: int)
    ensures |Pipeline([Deck(n)], Standard())| == if n > 0 then 52 * n else 0
  {
    PipelineAppliesFirstOptionFirst(Deck(n), [], Standard());
  }
}
