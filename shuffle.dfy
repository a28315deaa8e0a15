/** Shuffle: a deck reindexed through a permutation of its positions.

    The permutation comes from a process-wide pseudo-random source in package
    deck (rand.Perm on a time-seeded generator); here it is a parameter, with
    the promise rand.Perm makes about it as the precondition. */
module Shuffling {
  import opened Cards

  /** The integers [0, n) in increasing order. */
  function Iota(n: nat): (r: seq<int>)
    ensures |r| == n
    ensures forall i :: 0 <= i < n ==> r[i] == i
  {
    seq(n, i requires 0 <= i < n => i)
  }

  /** perm is a permutation of [0, n), as rand.Perm(n) returns: n values, all
      in [0, n), and each of 0 .. n-1 exactly once. */
  predicate IsPermutation(perm: seq<int>, n: nat) {
    && |perm| == n
    && (forall i :: 0 <= i < n ==> 0 <= perm[i] < n)
    && multiset(perm) == multiset(Iota(n))
  }

  /** The deck reindexed through perm: position i holds cards[perm[i]]. It has the
      deck's length, and a card occurs in it exactly when it occurs in the deck. */
  function Permuted(cards: seq<Card>, perm: seq<int>): (r: seq<Card>)
    requires IsPermutation(perm, |cards|)
    ensures |r| == |cards|
    ensures forall c :: c in r <==> c in cards
  {
    var r := seq(|cards|, i requires 0 <= i < |cards| => cards[perm[i]]);
    assert forall j :: 0 <= j < |cards| ==> cards[j] in r by {
      forall j | 0 <= j < |cards| ensures cards[j] in r {
        assert Iota(|cards|)[j] == j;
        assert j in multiset(perm);
        var i :| 0 <= i < |perm| && perm[i] == j;
        assert r[i] == cards[j];
      }
    }
    r
  }

  /** Shuffle: fills a fresh slice with ret[i] = cards[perm[i]]. The result is a
      rearrangement of the input: same length, same cards with the same counts. */
  method Shuffle(cards: seq<Card>, perm: seq<int>) returns (ret: seq<Card>)
    requires IsPermutation(perm, |cards|)
    ensures |ret| == |cards|
    ensures forall i :: 0 <= i < |cards| ==> ret[i] == cards[perm[i]]
    ensures multiset(ret) == multiset(cards)
  {
    var a := new Card[|cards|];
    for i := 0 to |cards|
      invariant forall k :: 0 <= k < i ==> a[k] == cards[perm[k]]
    {
      a[i] := cards[perm[i]];
    }
    ret := a[..];
    assert ret == Permuted(cards, perm);
    PermutedIsRearrangement(cards, perm);
  }

  /** Reindexing through a permutation keeps every card with its multiplicity. */
  lemma {:induction false} PermutedIsRearrangement(cards: seq<Card>, perm: seq<int>)
    requires IsPermutation(perm, |cards|)
    ensures multiset(Permuted(cards, perm)) == multiset(cards)
    decreases |cards|
  {
    var n := |cards|;
    if n > 0 {
      var last := n - 1;
      var k := IndexOfLast(perm, n);
      var perm' := perm[..k] + perm[k + 1..];
      var cards' := cards[..last];
      PermutedIsRearrangement(cards', perm');
      var r := Permuted(cards, perm);
      assert Permuted(cards', perm') == r[..k] + r[k + 1..];
      assert r == r[..k] + [r[k]] + r[k + 1..];
      assert cards == cards' + [cards[last]];
      calc {
        multiset(r);
        multiset(r[..k]) + multiset{r[k]} + multiset(r[k + 1..]);
        multiset(Permuted(cards', perm')) + multiset{cards[last]};
        multiset(cards') + multiset{cards[last]};
        multiset(cards);
      }
    }
  }

  /** A permutation of [0, n) holds n - 1 at some position k, and without that
      position it is a permutation of [0, n - 1). */
  lemma IndexOfLast(perm: seq<int>, n: nat) returns (k: nat)
    requires n > 0 && IsPermutation(perm, n)
    ensures k < n && perm[k] == n - 1
    ensures IsPermutation(perm[..k] + perm[k + 1..], n - 1)
  {
    var last := n - 1;
    assert Iota(n)[last] == last;
    assert last in multiset(perm);
    k :| 0 <= k < n && perm[k] == last;
    var perm' := perm[..k] + perm[k + 1..];
    RemoveAt(perm, k);
    assert Iota(n) == Iota(last) + [last];
    assert multiset(perm') == multiset(Iota(last));
    forall i | 0 <= i < last ensures 0 <= perm'[i] < last {
      assert perm'[i] in multiset(Iota(last));
      assert perm'[i] in Iota(last);
    }
  }

  /** Dropping position k of a sequence drops one occurrence of its value. */
  lemma RemoveAt(s: seq<int>, k: nat)
    requires k < |s|
    ensures multiset(s[..k] + s[k + 1..]) == multiset(s) - multiset{s[k]}
  {
    assert s == s[..k] + [s[k]] + s[k + 1..];
  }

  /** The identity permutation leaves the deck as it is. */
  lemma PermutedByIdentity(cards: seq<Card>)
    ensures IsPermutation(Iota(|cards|), |cards|)
    ensures Permuted(cards, Iota(|cards|)) == cards
  {
  }
}
