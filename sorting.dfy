/** Ordering of decks: Less, DefaultSort and Sort(less).

    The sort itself is library code (sort.Slice, not stable); the model states it
    by its postcondition (a permutation ordered by the key) and gives one
    algorithm meeting it, as a function for use as a deck option and in place on
    an array. Comparators are restricted to those derived from a key function,
    less(cards)(i, j) = key(cards[i]) < key(cards[j]); Less is the one for AbsRank. */
module Sorting {
  import opened Cards

  /** Non-decreasing by key. */
  predicate SortedBy(key: Card -> int, s: seq<Card>) {
    forall i, j :: 0 <= i < j < |s| ==> key(s[i]) <= key(s[j])
  }

  /** Less(cards)(i, j): the card at i has a smaller absolute rank than the card at j;
      on playable cards, it comes in an earlier suit, or in the same suit with a lower rank. */
  function Less(cards: seq<Card>, i: int, j: int): (b: bool)
    requires 0 <= i < |cards| && 0 <= j < |cards|
    ensures IsPlayable(cards[i]) && IsPlayable(cards[j]) ==>
              (b <==> SuitIndex(cards[i].suit) < SuitIndex(cards[j].suit) ||
                      (cards[i].suit == cards[j].suit && cards[i].rank < cards[j].rank))
  {
    AbsRank(cards[i]) < AbsRank(cards[j])
  }

  /** Less is a strict weak order on the indices of any deck, the contract sort.Slice
      asks of its comparator: irreflexive, transitive, and with transitive incomparability. */
  lemma LessIsStrictWeakOrder(cards: seq<Card>)
    ensures forall i :: 0 <= i < |cards| ==> !Less(cards, i, i)
    ensures forall i, j, k ::
              (0 <= i < |cards| && 0 <= j < |cards| && 0 <= k < |cards| &&
               Less(cards, i, j) && Less(cards, j, k)) ==> Less(cards, i, k)
    ensures forall i, j, k ::
              (0 <= i < |cards| && 0 <= j < |cards| && 0 <= k < |cards| &&
               !Less(cards, i, j) && !Less(cards, j, i) && !Less(cards, j, k) && !Less(cards, k, j)) ==>
              !Less(cards, i, k) && !Less(cards, k, i)
  {
  }

  /** Inserts c into a deck sorted by key, before the first card with a key not below it. */
  function InsertBy(key: Card -> int, c: Card, s: seq<Card>): (r: seq<Card>)
    requires SortedBy(key, s)
    ensures SortedBy(key, r)
    ensures multiset(r) == multiset(s) + multiset{c}
    decreases |s|
  {
    if s == [] then [c]
    else if key(c) <= key(s[0]) then [c] + s
    else
      var rest := InsertBy(key, c, s[1..]);
      assert s == [s[0]] + s[1..];
      LowerBound(key, key(s[0]), c, s[1..], rest);
      [s[0]] + rest
  }

  /** A bound below c and below every card of s is below every card of a
      permutation of s with c added. */
  lemma LowerBound(key: Card -> int, b: int, c: Card, s: seq<Card>, r: seq<Card>)
    requires multiset(r) == multiset(s) + multiset{c}
    requires b <= key(c)
    requires forall k :: 0 <= k < |s| ==> b <= key(s[k])
    ensures forall k :: 0 <= k < |r| ==> b <= key(r[k])
  {
    forall k | 0 <= k < |r| ensures b <= key(r[k]) {
      assert r[k] in multiset(r);
      if r[k] != c {
        assert r[k] in multiset(s);
        var m :| 0 <= m < |s| && s[m] == r[k];
      }
    }
  }

  /** A permutation of s, sorted by key (insertion sort). */
  function SortBy(key: Card -> int, s: seq<Card>): (r: seq<Card>)
    ensures SortedBy(key, r)
    ensures multiset(r) == multiset(s)
    ensures |r| == |s|
    decreases |s|
  {
    if s == [] then []
    else
      assert s == [s[0]] + s[1..];
      var r := InsertBy(key, s[0], SortBy(key, s[1..]));
      assert |r| == |multiset(r)|;
      r
  }

  /** sort.Slice(a, less) with less derived from key: sorts a in place. */
  method SortSlice(a: array<Card>, key: Card -> int)
    modifies a
    ensures SortedBy(key, a[..])
    ensures multiset(a[..]) == multiset(old(a[..]))
  {
    var i := 0;
    while i < a.Length
      invariant 0 <= i <= a.Length
      invariant forall p, q :: 0 <= p < q < i ==> key(a[p]) <= key(a[q])
      invariant multiset(a[..]) == multiset(old(a[..]))
    {
      SiftDown(a, key, i);
      i := i + 1;
    }
  }

  /** One step of insertion sort: moves a[i] left past every card with a larger
      key, so that a[..i+1] becomes sorted; cards from i+1 on stay put. */
  method SiftDown(a: array<Card>, key: Card -> int, i: nat)
    requires i < a.Length
    requires forall p, q :: 0 <= p < q < i ==> key(a[p]) <= key(a[q])
    modifies a
    ensures forall p, q :: 0 <= p < q <= i ==> key(a[p]) <= key(a[q])
    ensures forall p :: i < p < a.Length ==> a[p] == old(a[p])
    ensures multiset(a[..]) == multiset(old(a[..]))
  {
    var j := i;
    while j > 0 && key(a[j - 1]) > key(a[j])
      invariant 0 <= j <= i
      invariant forall p, q :: 0 <= p < q <= i && p != j && q != j ==> key(a[p]) <= key(a[q])
      invariant forall q :: j < q <= i ==> key(a[j]) <= key(a[q])
      invariant forall p :: i < p < a.Length ==> a[p] == old(a[p])
      invariant multiset(a[..]) == multiset(old(a[..]))
    {
      Swap(a, j - 1, j);
      j := j - 1;
    }
  }

  /** Exchanges a[i] and a[j] and leaves every other element where it was. */
  method Swap(a: array<Card>, i: nat, j: nat)
    requires i < j < a.Length
    modifies a
    ensures a[i] == old(a[j]) && a[j] == old(a[i])
    ensures forall m :: 0 <= m < a.Length && m != i && m != j ==> a[m] == old(a[m])
    ensures multiset(a[..]) == multiset(old(a[..]))
  {
    a[i], a[j] := a[j], a[i];
  }

  /** DefaultSort: sorts the deck in place by absolute rank and returns it. */
  method DefaultSort(a: array<Card>) returns (r: array<Card>)
    modifies a
    ensures r == a
    ensures SortedBy(AbsRank, a[..])
    ensures multiset(a[..]) == multiset(old(a[..]))
  {
    SortSlice(a, AbsRank);
    r := a;
  }

  /** The first card of s occurs in any permutation t of s, at some k; removing it
      from both leaves permutations of each other. */
  lemma RemoveFirst(s: seq<Card>, t: seq<Card>) returns (k: nat)
    requires s != [] && multiset(s) == multiset(t)
    ensures k < |t| && t[k] == s[0]
    ensures multiset(s[1..]) == multiset(t[..k] + t[k + 1..])
  {
    assert s[0] in multiset(t);
    k :| 0 <= k < |t| && t[k] == s[0];
    assert t == t[..k] + [t[k]] + t[k + 1..];
    assert s == [s[0]] + s[1..];
    calc {
      multiset(s[1..]);
      multiset(s) - multiset{s[0]};
      multiset(t) - multiset{t[k]};
      multiset(t[..k] + t[k + 1..]);
    }
  }

  /** Any two sorted permutations of the same deck agree on the key at every
      position: a sort may order cards with equal keys differently, and nothing else. */
  lemma {:induction false} SortedPermutationsAgreeOnKeys(key: Card -> int, s: seq<Card>, t: seq<Card>)
    requires SortedBy(key, s) && SortedBy(key, t)
    requires multiset(s) == multiset(t)
    ensures |s| == |t|
    ensures forall i :: 0 <= i < |s| ==> key(s[i]) == key(t[i])
    decreases |s|
  {
    assert |s| == |multiset(s)| == |multiset(t)| == |t|;
    if s != [] {
      var k := RemoveFirst(s, t);
      var t' := t[..k] + t[k + 1..];
      assert t[0] in multiset(s);
      var m :| 0 <= m < |s| && s[m] == t[0];
      assert key(s[0]) == key(t[0]);
      assert SortedBy(key, t') by {
        forall i, j | 0 <= i < j < |t'| ensures key(t'[i]) <= key(t'[j]) {
          var i', j' := if i < k then i else i + 1, if j < k then j else j + 1;
          assert t'[i] == t[i'] && t'[j] == t[j'];
        }
      }
      SortedPermutationsAgreeOnKeys(key, s[1..], t');
      forall i | 0 <= i < |s| ensures key(s[i]) == key(t[i]) {
        if 0 < i && k < i {
          assert s[i] == s[1..][i - 1] && t'[i - 1] == t[i];
        } else if 0 < i {
          assert s[i] == s[1..][i - 1] && t'[i - 1] == t[i - 1];
          assert key(t[0]) <= key(t[i - 1]) <= key(t[i]) <= key(t[k]);
        }
      }
    }
  }
}
