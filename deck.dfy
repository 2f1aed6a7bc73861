/** The canonical 52-card deck, the Fisher–Yates shuffle and the dealing of
    5-card hands, as the game server runs them when a round starts.
    The server's random draws are a parameter: `draws[k]` is the index that
    the k-th swap of the shuffle picks. */
module Deck {

  type Card = string

  /** The rank tokens in deck order. */
  const RankTokens: seq<string> := ["2", "3", "4", "5", "6", "7", "8", "9", "10", "J", "Q", "K", "A"]

  /** The one-letter suit codes in deck order; the server draws the target
      suit from a list with the same four codes in the same order. */
  const SuitCodes: seq<string> := ["H", "D", "C", "S"]

  /** The number of cards in a hand. */
  const HandSize: nat := 5

  /** The card at position `i` of the canonical deck: the deck lists the
      hearts, then the diamonds, the clubs and the spades, each suit from
      2 up to the ace. */
  function CardAt(i: int): Card
    requires 0 <= i < 52
  {
    RankTokens[i % 13] + SuitCodes[i / 13]
  }

  /** The server's canonical deck, "2H", "3H", ..., "AH", "2D", ..., "AS". */
  function CardDeck(): seq<Card>
  {
    seq(52, CardAt)
  }

  /** A sequence in which no card occurs twice. */
  ghost predicate Distinct(s: seq<Card>)
  {
    forall i, j :: 0 <= i < j < |s| ==> s[i] != s[j]
  }

  /** A few entries of the canonical deck, spelled out. */
  lemma CardDeckSamples()
    ensures |CardDeck()| == 52
    ensures CardDeck()[0] == "2H" && CardDeck()[8] == "10H" && CardDeck()[12] == "AH"
    ensures CardDeck()[13] == "2D" && CardDeck()[34] == "10C" && CardDeck()[51] == "AS"
  {
  }

  /** Every rank token and every suit code is non-empty, suit codes are
      single letters, and no token appears twice in its list. */
  lemma TokenFacts()
    ensures forall t :: 0 <= t < 13 ==> 1 <= |RankTokens[t]| <= 2
    ensures forall s :: 0 <= s < 4 ==> |SuitCodes[s]| == 1
    ensures forall a, b :: 0 <= a < b < 4 ==> SuitCodes[a] != SuitCodes[b]
    ensures forall a, b :: 0 <= a < b < 13 ==> RankTokens[a] != RankTokens[b]
  {
  }

  /** A string ending in a one-character tail splits back into its parts. */
  lemma SplitLast(a: string, b: string, a': string, b': string)
    requires |b| == 1 && |b'| == 1 && a + b == a' + b'
    ensures a == a' && b == b'
  {
    var c := a + b;
    assert a == c[..|c| - 1] && b == c[|c| - 1..];
  }

  /** Different positions of the deck hold different cards. */
  lemma CardAtInjective(i: int, j: int)
    requires 0 <= i < 52 && 0 <= j < 52
    ensures CardAt(i) == CardAt(j) ==> i == j
  {
    if CardAt(i) == CardAt(j) {
      TokenFacts();
      SplitLast(RankTokens[i % 13], SuitCodes[i / 13], RankTokens[j % 13], SuitCodes[j / 13]);
      assert i / 13 == j / 13 && i % 13 == j % 13;
    }
  }

  /** No card appears twice in the canonical deck. */
  lemma CardDeckDistinct()
    ensures Distinct(CardDeck())
  {
    forall i, j | 0 <= i < j < 52
      ensures CardDeck()[i] != CardDeck()[j]
    {
      CardAtInjective(i, j);
    }
  }

  // ---------------------------------------------------------------------
  // Shuffle
  // ---------------------------------------------------------------------

  /** What the server's random source produces for a deck of `n` cards: one
      draw per swap, the k-th swap working on position n-1-k and drawing an
      index between 0 and n-1-k. */
  ghost predicate ValidDraws(draws: seq<nat>, n: nat)
  {
    && |draws| == (if n == 0 then 0 else n - 1)
    && forall k :: 0 <= k < |draws| ==> draws[k] <= n - 1 - k
  }

  /** Exchange the cards at positions i and j. */
  function Swap(s: seq<Card>, i: nat, j: nat): (r: seq<Card>)
    requires i < |s| && j < |s|
    ensures |r| == |s| && r[i] == s[j] && r[j] == s[i]
    ensures forall k :: 0 <= k < |s| && k != i && k != j ==> r[k] == s[k]
  {
    s[i := s[j]][j := s[i]]
  }

  /** The shuffle loop run from position `i` down to position 1: swap
      position i with the first remaining draw, then go on with i - 1. */
  function ShuffleFrom(s: seq<Card>, i: nat, draws: seq<nat>): seq<Card>
    requires i < |s|
    requires |draws| == i
    requires forall k :: 0 <= k < i ==> draws[k] <= i - k
    decreases i
  {
    if i == 0 then s
    else ShuffleFrom(Swap(s, i, draws[0]), i - 1, draws[1..])
  }

  /** The deck that the shuffle produces from `s` under the given draws. */
  function Shuffled(s: seq<Card>, draws: seq<nat>): seq<Card>
    requires ValidDraws(draws, |s|)
  {
    if |s| == 0 then s else ShuffleFrom(s, |s| - 1, draws)
  }

  /** One swap keeps the cards and their multiplicities. */
  lemma SwapPermutes(s: seq<Card>, i: nat, j: nat)
    requires i < |s| && j < |s|
    ensures multiset(Swap(s, i, j)) == multiset(s)
    ensures Distinct(s) ==> Distinct(Swap(s, i, j))
  {
    var r := Swap(s, i, j);
    assert r == s[i := s[j]][j := s[i]];
    if Distinct(s) {
      forall a, b | 0 <= a < b < |r| ensures r[a] != r[b] {
        var a' := if a == i then j else if a == j then i else a;
        var b' := if b == i then j else if b == j then i else b;
        assert r[a] == s[a'] && r[b] == s[b'] && a' != b';
      }
    }
  }

  lemma {:induction false} ShuffleFromPermutes(s: seq<Card>, i: nat, draws: seq<nat>)
    requires i < |s|
    requires |draws| == i
    requires forall k :: 0 <= k < i ==> draws[k] <= i - k
    ensures |ShuffleFrom(s, i, draws)| == |s|
    ensures multiset(ShuffleFrom(s, i, draws)) == multiset(s)
    ensures Distinct(s) ==> Distinct(ShuffleFrom(s, i, draws))
    decreases i
  {
    if i > 0 {
      SwapPermutes(s, i, draws[0]);
      ShuffleFromPermutes(Swap(s, i, draws[0]), i - 1, draws[1..]);
    }
  }

  /** Whatever the draws, the shuffled deck holds exactly the cards of the
      input, each as often as before; a deck without repeats stays so. */
  lemma ShuffledPermutes(s: seq<Card>, draws: seq<nat>)
    requires ValidDraws(draws, |s|)
    ensures |Shuffled(s, draws)| == |s|
    ensures multiset(Shuffled(s, draws)) == multiset(s)
    ensures Distinct(s) ==> Distinct(Shuffled(s, draws))
  {
    if |s| > 0 {
      ShuffleFromPermutes(s, |s| - 1, draws);
    }
  }

  /** The shuffled canonical deck has 52 different cards, all from the
      canonical deck. */
  lemma ShuffledCardDeck(draws: seq<nat>)
    requires ValidDraws(draws, 52)
    ensures |Shuffled(CardDeck(), draws)| == 52
    ensures multiset(Shuffled(CardDeck(), draws)) == multiset(CardDeck())
    ensures Distinct(Shuffled(CardDeck(), draws))
  {
    CardDeckDistinct();
    ShuffledPermutes(CardDeck(), draws);
  }

  /** Fisher–Yates in place: from the last position down to position 1, swap
      the current position with the drawn one. */
  method Shuffle(deck: array<Card>, draws: seq<nat>)
    requires ValidDraws(draws, deck.Length)
    modifies deck
    ensures deck[..] == Shuffled(old(deck[..]), draws)
    ensures multiset(deck[..]) == multiset(old(deck[..]))
  {
    var n := deck.Length;
    var i: int := n - 1;
    while i > 0
      invariant n == 0 ==> i == -1
      invariant n > 0 ==> 0 <= i <= n - 1
      invariant n > 0 ==> ShuffleFrom(deck[..], i, draws[n - 1 - i..]) == Shuffled(old(deck[..]), draws)
    {
      ghost var before := deck[..];
      var j := draws[n - 1 - i];
      deck[i], deck[j] := deck[j], deck[i];
      assert deck[..] == Swap(before, i, j);
      assert draws[n - 1 - i..][1..] == draws[n - 1 - (i - 1)..];
      i := i - 1;
    }
    ShuffledPermutes(old(deck[..]), draws);
  }

  /** Shuffle a fresh copy of `deck`; `deck` itself is a value and is left
      as it is. */
  method ShuffleCopy(deck: seq<Card>, draws: seq<nat>) returns (shuffled: seq<Card>)
    requires ValidDraws(draws, |deck|)
    ensures shuffled == Shuffled(deck, draws)
    ensures multiset(shuffled) == multiset(deck)
  {
    var copy := new Card[|deck|](i requires 0 <= i < |deck| => deck[i]);
    assert copy[..] == deck;
    Shuffle(copy, draws);
    shuffled := copy[..];
  }

  // ---------------------------------------------------------------------
  // Deal
  // ---------------------------------------------------------------------

  function Min(a: nat, b: nat): nat { if a <= b then a else b }

  /** Array slice with its bounds clamped to the length, as the server's
      runtime does for non-negative bounds. */
  function Slice(s: seq<Card>, from: nat, to: nat): (r: seq<Card>)
    ensures |r| == if from < to && from < |s| then Min(to, |s|) - from else 0
    ensures forall k :: 0 <= k < |r| ==> from + k < |s| && r[k] == s[from + k]
  {
    if Min(from, |s|) <= Min(to, |s|) then s[Min(from, |s|)..Min(to, |s|)] else []
  }

  /** The hand of the k-th player: five consecutive cards from index 5k,
      fewer (down to none) when the deck runs out. */
  function HandAt(deck: seq<Card>, k: nat): seq<Card>
  {
    Slice(deck, HandSize * k, HandSize * k + HandSize)
  }

  /** The hands of players 0 .. n-1. */
  function Hands(deck: seq<Card>, n: nat): (hs: seq<seq<Card>>)
    ensures |hs| == n
  {
    seq(n, k requires 0 <= k < n => HandAt(deck, k))
  }

  /** The cards left after n hands. */
  function Remainder(deck: seq<Card>, n: nat): seq<Card>
  {
    deck[Min(HandSize * n, |deck|)..]
  }

  /** All hands, one after the other. */
  function Concat(hs: seq<seq<Card>>): seq<Card>
  {
    if hs == [] then [] else Concat(hs[..|hs| - 1]) + hs[|hs| - 1]
  }

  /** The server's dealing loop: n hands of consecutive cards, a counter
      advancing by five per hand, and the cards left over. */
  method Deal(deck: seq<Card>, players: nat) returns (hands: seq<seq<Card>>, rest: seq<Card>)
    ensures |hands| == players
    ensures forall k :: 0 <= k < players ==> hands[k] == deck[Min(HandSize * k, |deck|)..Min(HandSize * k + HandSize, |deck|)]
    ensures rest == deck[Min(HandSize * players, |deck|)..]
    ensures hands == Hands(deck, players) && rest == Remainder(deck, players)
  {
    hands := [];
    var current: nat := 0;
    for i := 0 to players
      invariant current == HandSize * i
      invariant hands == Hands(deck, i)
    {
      hands := hands + [Slice(deck, current, current + HandSize)];
      current := current + HandSize;
    }
    rest := Slice(deck, current, |deck|);
  }

  /** The dealt hands, one after the other, are the first min(5n, |deck|)
      cards of the deck. */
  lemma {:induction false} DealPrefix(deck: seq<Card>, n: nat)
    ensures Concat(Hands(deck, n)) == deck[..Min(HandSize * n, |deck|)]
  {
    if n > 0 {
      DealPrefix(deck, n - 1);
      assert Hands(deck, n)[..n - 1] == Hands(deck, n - 1);
    }
  }

  /** The dealt hands followed by the remainder give back the deck. */
  lemma DealPartition(deck: seq<Card>, n: nat)
    ensures Concat(Hands(deck, n)) + Remainder(deck, n) == deck
  {
    DealPrefix(deck, n);
  }

  /** With at most ten players and a full deck, every hand has five cards and
      52 - 5n cards are left. */
  lemma DealFullHands(deck: seq<Card>, n: nat)
    requires |deck| == 52 && n <= 10
    ensures forall k :: 0 <= k < n ==> |Hands(deck, n)[k]| == HandSize
    ensures |Remainder(deck, n)| == 52 - HandSize * n
  {
  }

  /** With more than ten players the deck runs out: the eleventh player gets
      the last two cards, every later player an empty hand, and nothing is
      left over. */
  lemma DealOverflow(deck: seq<Card>, n: nat)
    requires |deck| == 52 && n > 10
    ensures Hands(deck, n)[10] == deck[50..]
    ensures forall k :: 11 <= k < n ==> Hands(deck, n)[k] == []
    ensures Remainder(deck, n) == []
  {
  }

  /** From a deck without repeats, no card is in two hands, and no card of a
      hand is left in the remainder. */
  lemma HandsDisjoint(deck: seq<Card>, n: nat)
    requires Distinct(deck)
    ensures forall k1, k2, c :: 0 <= k1 < k2 < n && c in Hands(deck, n)[k1] ==> c !in Hands(deck, n)[k2]
    ensures forall k, c :: 0 <= k < n && c in Hands(deck, n)[k] ==> c !in Remainder(deck, n)
  {
    var hs := Hands(deck, n);
    forall k1, k2, c | 0 <= k1 < k2 < n && c in hs[k1]
      ensures c !in hs[k2]
    {
      var a :| 0 <= a < |hs[k1]| && hs[k1][a] == c;
      HandAtIndex(deck, k1, a);
      forall b | 0 <= b < |hs[k2]|
        ensures hs[k2][b] != c
      {
        HandAtIndex(deck, k2, b);
      }
    }
    forall k, c | 0 <= k < n && c in hs[k]
      ensures c !in Remainder(deck, n)
    {
      var a :| 0 <= a < |hs[k]| && hs[k][a] == c;
      HandAtIndex(deck, k, a);
      var m := Min(HandSize * n, |deck|);
      forall b | 0 <= b < |deck| - m
        ensures Remainder(deck, n)[b] != c
      {
        assert Remainder(deck, n)[b] == deck[m + b];
      }
    }
  }

  /** Card a of hand k is card 5k + a of the deck. */
  lemma HandAtIndex(deck: seq<Card>, k: nat, a: nat)
    requires a < |HandAt(deck, k)|
    ensures HandSize * k + a < |deck| && HandAt(deck, k)[a] == deck[HandSize * k + a]
  {
  }

  /** The remainder holds only cards of the deck it was dealt from. */
  lemma RemainderWithin(deck: seq<Card>, n: nat)
    ensures multiset(Remainder(deck, n)) <= multiset(deck)
  {
    var m := Min(HandSize * n, |deck|);
    assert deck == deck[..m] + deck[m..];
  }
}
