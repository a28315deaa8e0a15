# deck — a verified model of a Go playing-card library

Package `deck` builds the standard 52-card deck, suit-major and rank-minor
(Spades, Diamonds, Clubs, Hearts, each from Ace to King). It then passes the deck
through the caller's options. An option is a function from deck to deck, and
`New` applies the options from left to right. The package offers these options:

- `DefaultSort` orders the deck by absolute rank, `suit * 13 + rank`. `Sort(less)`
  orders it by the caller's comparator, and `Sort(Less)` gives the default order.
- `Shuffle` reindexes the deck through a random permutation.
- `Jokers(n)` appends `n` jokers, tagged `Rank(0)` to `Rank(n - 1)`.
- `Filter(f)` drops the cards for which `f` is true.
- `Deck(n)` concatenates `n` copies of the deck.

The model has four modules:

- `Cards` (cards.dfy): the types, with `Rank` as an 8-bit signed integer and the
  Go conversion `Rank(i)` as two's-complement truncation. It also holds absolute
  rank and `Card.String`.
- `Sorting` (sorting.dfy): sortedness by a key, `Less`, a sort written as a
  function for use as an option, the same sort in place on an array (`Sort`'s
  closure body and `DefaultSort`), and the fact that any two sorted
  permutations of a deck agree on the key at every position.
- `Shuffling` (shuffle.dfy): permutations of `[0, n)` and `Shuffle`, which fills
  a fresh array.
- `Deck` (deck.dfy): the base deck, the fold `Pipeline` and `New`, and the
  option factories `Jokers`, `Filter` and `Deck`. Each closure body is a loop
  method (`AddJokers`, `FilterOut`, `Repeat`) proved equal to a function
  (`WithJokers`, `Without`, `Repeated`). That function, as a value, is the option
  that `New` folds.

Options are values of type `seq<Card> -> seq<Card>`. Randomness is a parameter:
`Shuffle` takes the permutation, and the `ShuffleWith` option takes a source
that yields a permutation of `[0, n)` for every `n`.

In three respects the model follows the code where a reader might expect otherwise:

- Negative counts are not rejected. `Jokers(n)` with `n <= 0` leaves the deck
  as it is, and `Deck(n)` with `n <= 0` returns the empty deck.
- `Rank` is not confined to Ace..King. Jokers carry `Rank(i)`, which wraps at
  8 bits.
- `DefaultSort` and `Sort` reorder their argument in place rather than return a
  new sequence.

## Model

| member | source | states |
|---|---|---|
| `Cards.SuitIndex` | deck.go:15-23 | the suits are 0..4 in declaration order; only Joker is 4; the playable suits list `suits` in that same order |
| `Cards.ToRank` | deck.go:129 | `Rank(i)` equals `i` on the int8 range and otherwise differs from `i` by a multiple of 256 (two's-complement wrap) |
| `Cards.AbsRank` | deck.go:107-109 | a playable card's absolute rank lies in 1..52 |
| `Cards.AbsRankIsSuitMajor` | deck.go:107-109 | on playable cards, absRank orders by suit first and by rank within a suit |
| `Cards.AbsRankInjective` | deck.go:107-109 | on playable cards, equal absolute ranks mean equal cards |
| `Cards.AbsRankJokerCollision` | deck.go:107-109 | the joker tagged 0 and the King of Hearts share absolute rank 52, so the key is not injective once jokers are present |
| `Cards.CardString` | deck.go:60-65 | a joker prints as its suit name; any other card prints as its rank name, then " of ", then its own suit's name, then "s" |
| `Cards.CardStringIgnoresJokerTag` | deck.go:60-65 | every joker prints as the Joker suit's name, whatever its tag |
| `Cards.CardStringExamples` | deck_test.go:8-30 | with names equal to the constants' identifiers, the cards print as "Ace of Hearts", "Two of Clubs", "Jack of Diamonds", "King of Spades" and "Joker" |
| `Sorting.Less` | deck.go:86-90 | on playable cards, `Less(cards)(i, j)` holds exactly when card i is in an earlier suit, or in the same suit with a lower rank |
| `Sorting.LessIsStrictWeakOrder` | deck.go:86-90 | `Less(cards)` is irreflexive and transitive, and incomparability is transitive: the strict weak order that sort.Slice asks of its comparator |
| `Sorting.SortBy` | deck.go:99-104 | the `Sort` option's result is sorted by the key, and it is a permutation of the input of the same length |
| `Sorting.SortSlice` | deck.go:100-103 | `Sort`'s closure sorts the slice in place by the key and leaves it a permutation of what it held |
| `Sorting.DefaultSort` | deck.go:93-96 | sorts the given slice in place by absolute rank, leaves it a permutation of its old contents, and returns that same slice |
| `Sorting.SortedPermutationsAgreeOnKeys` | deck.go:94 | any two sorted permutations of a deck have the same length and the same key at every position: an unstable sort can only reorder cards with equal keys |
| `Shuffling.Shuffle` | deck.go:114-122 | the result has the input's length, holds `cards[perm[i]]` at position i, and has the input's multiset of cards |
| `Shuffling.Permuted` | deck.go:117-119 | the reindexed deck has the input's length, and a card occurs in it exactly when it occurs in the input |
| `Shuffling.PermutedIsRearrangement` | deck.go:115-119 | reindexing through a permutation of `[0, n)` keeps every card with its multiplicity |
| `Shuffling.PermutedByIdentity` | deck.go:117-119 | the identity permutation is a permutation, and it leaves the deck unchanged |
| `Deck.Standard` | deck.go:70-76 | the base deck has 52 cards |
| `Deck.StandardAt` | deck.go:72-76 | the card of suit `suits[s]` and rank r sits at index 13 * s + (r - 1) |
| `Deck.StandardAbsRank` | deck.go:70-76 | along the base deck every card is playable, absRank at index i is i + 1, the deck is sorted, and it runs from the Ace of Spades to the King of Hearts |
| `Deck.StandardHasEachCardOnce` | deck.go:70-76 | each playable card occurs exactly once in the base deck and no other card occurs |
| `Deck.Pipeline` | deck.go:78-80 | when every option only rearranges its deck, the options applied in order leave the deck's multiset of cards unchanged |
| `Deck.PipelineConcat` | deck.go:78-80 | applying two lists of options one after the other is applying their concatenation |
| `Deck.PipelineAppliesFirstOptionFirst` | deck.go:78-82 | one option is applied to the deck itself, and the first option's result feeds the remaining options |
| `Deck.New` | deck.go:69-83 | the result is the options folded left to right over the base deck; with no options it is the base deck |
| `Deck.SortedStandardIsStandard` | deck.go:93-96 | the only arrangement of the base deck that is sorted by absolute rank is the base deck itself |
| `Deck.NewSortedStartsWithAceOfSpades` | deck_test.go:40-66 | for any option that returns a sorted permutation, `New` with that option has 52 cards, starting with the Ace of Spades and ending with the King of Hearts |
| `Deck.Sort` | deck.go:99-104 | the `Sort` option returns every deck sorted by the key, as a permutation of itself |
| `Deck.DefaultSortOption` | deck.go:93-96 | the `DefaultSort` option returns every deck sorted by absolute rank, as a permutation of itself |
| `Deck.DefaultSortKeepsStandard` | deck.go:93-96 | the `DefaultSort` option leaves the base deck as it is |
| `Deck.DefaultSortAgreesWithOption` | deck.go:93-96 | any sorted permutation of a deck, such as the array the in-place `DefaultSort` leaves, has the same length and the same absolute rank at every position as the `DefaultSort` option's result |
| `Deck.DefaultSortOptionRespectsLess` | deck.go:86-96 | in the `DefaultSort` option's result no card is `Less` than a card before it, the postcondition sort.Slice gives for `Less` |
| `Deck.ShuffleWith` | deck.go:114-122 | the `Shuffle` option returns every deck with its length and its multiset of cards |
| `Deck.NewShuffledIsRearrangement` | deck.go:114-122 | `New(Shuffle)` holds the 52 base cards, each exactly once |
| `Deck.WithJokers` | deck.go:125-135 | the result has length len + max(n, 0), keeps the input as its prefix, and holds `(Joker, Rank(i))` at position len + i |
| `Deck.AddJokers` | deck.go:126-134 | the loop that appends jokers computes `WithJokers(n, cards)` |
| `Deck.Jokers` | deck.go:125-135 | the `Jokers(n)` option keeps every deck as its prefix and adds max(n, 0) cards, all of them jokers |
| `Deck.WithJokersCount` | deck.go:127-132 | `Jokers(n)` adds exactly max(n, 0) joker cards |
| `Deck.NewWithJokersCount` | deck_test.go:84-98 | `New(Jokers(n))` holds exactly max(n, 0) jokers |
| `Deck.JokerTagsDistinct` | deck.go:127-132 | when n <= 256 the appended jokers are pairwise distinct |
| `Deck.JokerTagsWrap` | deck.go:129 | when n > 256 the joker tagged `Rank(256)` equals the one tagged `Rank(0)`, because `Rank(i)` wraps at 8 bits |
| `Deck.Without` | deck.go:139-149 | no card of the filtered deck satisfies f, and the filtered deck is no longer than the input |
| `Deck.WithoutKeepsExactlyUnmatched` | deck.go:142-146 | the filtered deck keeps each card for which f is false with its multiplicity and no card for which f is true; its length is the input length minus the number of matches |
| `Deck.Filter` | deck.go:138-150 | the `Filter(f)` option returns every deck without the cards matching f, each other card as often as before, and the input length minus the number of matches |
| `Deck.FilterOut` | deck.go:139-149 | the filtering loop computes `Without(f, cards)` |
| `Deck.WithoutDistributes` | deck.go:142-146 | filtering a concatenation is the concatenation of the filtered parts, so the kept cards stay in their input order |
| `Deck.WithoutKeepsUnmatched` | deck.go:142-146 | a deck with no matching card comes through unchanged |
| `Deck.FilterIsIdempotent` | deck.go:138-150 | filtering twice with the same predicate equals filtering once |
| `Deck.NewFilteredExcludesMatches` | deck_test.go:100-111 | `New(Filter(f))` holds no card satisfying f, and it holds every playable card that does not satisfy f |
| `Deck.Repeated` | deck.go:153-161 | `Deck(n)` has length n * len when n > 0 and is empty otherwise |
| `Deck.Deck` | deck.go:153-161 | the `Deck(n)` option returns n * len cards when n > 0 and none otherwise, with position k holding the input's card k mod len |
| `Deck.Repeat` | deck.go:154-160 | the loop that appends the deck n times computes `Repeated(n, cards)` |
| `Deck.RepeatedCopies` | deck.go:156-158 | copy i of the result is the input: position i * len + j holds `cards[j]` |
| `Deck.RepeatedAt` | deck.go:153-161 | position k of the result holds `cards[k mod len]` |
| `Deck.NewRepeatedLength` | deck_test.go:113-118 | `New(Deck(n))` has 52 * n cards when n > 0 (156 for n = 3) and none otherwise |

## Left out

- The process-wide generator `shuffleRand` and its time-based seed (deck.go:111, 116). Permutations are parameters instead. The seed-specific expectations in deck_test.go:68-82 depend on the output of Go's math/rand, so the model does not reproduce them. The uniformity of rand.Perm is not modelled either.
- The algorithm inside sort.Slice is library code. `SortBy` and `SortSlice` are insertion sorts that stand in for it. Callers may rely only on their contracts: a sorted permutation. `SortedPermutationsAgreeOnKeys` shows that these contracts fix everything except the order among cards with equal keys.
- `Sort` with an arbitrary comparator closure. The model accepts only comparators derived from a key function, `less(cards)(i, j) = key(cards[i]) < key(cards[j])`. `Less` is the one for absolute rank.
- `Less(cards)` returns a closure over the slice. The model writes it as a function of the deck and both indices.
- `Suit.String` and `Rank.String` are not part of this model. `CardString` takes the two name functions as parameters.
- `ShuffleWith`: a `PermSource` yields one permutation per length, so two `Shuffle` options in one `New` on decks of equal length apply the same permutation twice. The Go code draws a fresh permutation on every call. Independent shuffles need independent sources.
- Go slice aliasing. `Jokers` may append into spare capacity of the caller's slice, and the sorts reorder the slice that New is holding. Apart from the in-place sort methods, every operation returns a new sequence.
- nil and empty slices are not distinguished. `Filter` and `Deck` return nil when nothing is kept.
- Out-of-range `Suit` values such as `Suit(7)` cannot be written. `Suit` is an enumeration of its five declared constants.
- The loop counters of `Jokers` and `Deck` are Go `int` (32 or 64 bits). The model uses unbounded integers, so it does not model wrap-around of those counters or running out of memory.
