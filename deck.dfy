/** The deck builder of the memory game: the card catalog, the three
    difficulty levels, the doubled deck and its Fisher-Yates shuffle.
    The random swap index of each shuffle round is an input (`picks`),
    so every statement about the shuffle holds whatever indices are drawn. */
module Deck {

  /** The difficulty levels the player can choose between. */
  datatype Difficulty = Easy | Medium | Hard

  /** One board position. `id` is the position the card had in the
      unshuffled deck, `originalId` the catalog id both cards of a pair share. */
  datatype Card = Card(id: int, originalId: int, matched: bool)

  /** The ids of the catalog entries, in catalog order.
      Images, titles and descriptions play no part in the game logic. */
  const Catalog: seq<int> := [1, 2, 3, 4, 5, 6, 7, 8]

  /** Number of pairs on the board for each difficulty. */
  function PairCount(d: Difficulty): nat
  {
    match d
    case Easy => 4
    case Medium => 6
    case Hard => 8
  }

  /** The catalog entries a game of difficulty `d` is played with:
      a prefix of the catalog, the whole catalog for `Hard`. */
  function SelectedIds(d: Difficulty): (ids: seq<int>)
    ensures |ids| == PairCount(d)
    ensures forall i :: 0 <= i < |ids| ==> ids[i] == i + 1
  {
    match d
    case Easy => Catalog[..4]
    case Medium => Catalog[..6]
    case Hard => Catalog
  }

  /** The selected entries followed by a second copy of them; each card's
      `id` is its position, its `originalId` the entry's catalog id. */
  function Doubled(ids: seq<int>): (deck: seq<Card>)
    ensures |deck| == 2 * |ids|
  {
    var both := ids + ids;
    seq(|both|, i requires 0 <= i < |both| => Card(i, both[i], false))
  }

  /** The deck before shuffling. */
  function BuildDeck(d: Difficulty): (deck: seq<Card>)
    ensures |deck| == 2 * PairCount(d)
  {
    Doubled(SelectedIds(d))
  }

  /** The pair identities of a row of cards, position by position. */
  function PairIds(cards: seq<Card>): (ids: seq<int>)
    ensures |ids| == |cards|
    ensures forall i :: 0 <= i < |cards| ==> ids[i] == cards[i].originalId
  {
    if cards == [] then [] else PairIds(cards[..|cards| - 1]) + [cards[|cards| - 1].originalId]
  }

  lemma {:induction false} PairIdsOfDoubled(ids: seq<int>)
    ensures PairIds(Doubled(ids)) == ids + ids
  {
    var deck := Doubled(ids);
    assert |PairIds(deck)| == |ids + ids|;
    forall i | 0 <= i < |ids + ids|
      ensures PairIds(deck)[i] == (ids + ids)[i]
    {
    }
  }

  /** In the sequence 1, 2, ..., n every value of 1..n occurs once and no other value occurs. */
  lemma {:induction false} CountsOfRange(s: seq<int>)
    requires forall i :: 0 <= i < |s| ==> s[i] == i + 1
    ensures forall x :: multiset(s)[x] == if 1 <= x <= |s| then 1 else 0
  {
    if s != [] {
      var n := |s|;
      var init := s[..n - 1];
      CountsOfRange(init);
      assert s == init + [n];
      assert multiset(s) == multiset(init) + multiset{n};
    }
  }

  /** The unshuffled deck has 2K cards for K = 4, 6 or 8; positions are
      numbered 0..2K-1, no card is matched, and each catalog id 1..K
      occurs exactly twice while no other id occurs. */
  lemma DeckShape(d: Difficulty)
    ensures |BuildDeck(d)| == 2 * PairCount(d)
    ensures PairCount(d) == (match d case Easy => 4 case Medium => 6 case Hard => 8)
    ensures forall i :: 0 <= i < |BuildDeck(d)| ==> BuildDeck(d)[i].id == i && !BuildDeck(d)[i].matched
    ensures forall x :: multiset(PairIds(BuildDeck(d)))[x] == if 1 <= x <= PairCount(d) then 2 else 0
  {
    var ids := SelectedIds(d);
    assert BuildDeck(d) == Doubled(ids);
    DoubledShape(ids);
  }

  /** The doubled deck of the entries 1..n: positions numbered in order, no
      card matched, each id of 1..n twice and no other id. */
  lemma DoubledShape(ids: seq<int>)
    requires forall i :: 0 <= i < |ids| ==> ids[i] == i + 1
    ensures |Doubled(ids)| == 2 * |ids|
    ensures forall i :: 0 <= i < |Doubled(ids)| ==> Doubled(ids)[i].id == i && !Doubled(ids)[i].matched
    ensures forall x :: multiset(PairIds(Doubled(ids)))[x] == if 1 <= x <= |ids| then 2 else 0
  {
    PairIdsOfDoubled(ids);
    CountsOfRange(ids);
    assert multiset(ids + ids) == multiset(ids) + multiset(ids);
  }

  /** Position `i` holds what position `j` held and vice versa. */
  function Swap<T>(s: seq<T>, i: nat, j: nat): (r: seq<T>)
    requires i < |s| && j < |s|
    ensures |r| == |s| && r[i] == s[j] && r[j] == s[i]
    ensures forall k :: 0 <= k < |s| && k != i && k != j ==> r[k] == s[k]
  {
    s[i := s[j]][j := s[i]]
  }

  /** Swap indices as the shuffle draws them: round `i` may pick any index in 0..i. */
  predicate ValidPicks(picks: seq<nat>, n: nat)
  {
    |picks| == n && forall i :: 0 <= i < n ==> picks[i] <= i
  }

  /** The shuffle's rounds i, i-1, ..., 1 applied to `s`. */
  function ShuffleDown<T>(s: seq<T>, picks: seq<nat>, i: int): (r: seq<T>)
    requires ValidPicks(picks, |s|) && i < |s|
    ensures |r| == |s|
    decreases i
  {
    if i <= 0 then s else ShuffleDown(Swap(s, i, picks[i]), picks, i - 1)
  }

  /** The rounds i, ..., 1 never touch the positions above i. */
  lemma {:induction false} ShuffleDownKeepsAbove<T>(s: seq<T>, picks: seq<nat>, i: int)
    requires ValidPicks(picks, |s|) && i < |s|
    ensures forall k :: 0 <= k < |s| && i < k ==> ShuffleDown(s, picks, i)[k] == s[k]
    decreases i
  {
    if i > 0 {
      ShuffleDownKeepsAbove(Swap(s, i, picks[i]), picks, i - 1);
    }
  }

  /** The Fisher-Yates shuffle of `s` with the swap indices `picks`.
      Whatever indices are drawn, it only rearranges its input. */
  function Shuffled<T>(s: seq<T>, picks: seq<nat>): (r: seq<T>)
    requires ValidPicks(picks, |s|)
    ensures |r| == |s|
    ensures multiset(r) == multiset(s)
  {
    ShuffleDownPermutes(s, picks, |s| - 1);
    ShuffleDown(s, picks, |s| - 1)
  }

  /** Shuffles `a` in place: for i from the last index down to 1, swap
      positions i and picks[i]. */
  method Shuffle<T>(a: array<T>, picks: seq<nat>)
    requires ValidPicks(picks, a.Length)
    modifies a
    ensures a[..] == Shuffled(old(a[..]), picks)
  {
    var i := a.Length - 1;
    while i > 0
      invariant -1 <= i < a.Length
      invariant ShuffleDown(a[..], picks, i) == Shuffled(old(a[..]), picks)
      decreases i
    {
      var j := picks[i];
      ghost var before := a[..];
      a[i], a[j] := a[j], a[i];
      assert a[..] == Swap(before, i, j);
      i := i - 1;
    }
  }

  lemma SwapPermutes<T>(s: seq<T>, i: nat, j: nat)
    requires i < |s| && j < |s|
    ensures multiset(Swap(s, i, j)) == multiset(s)
  {
  }

  lemma {:induction false} ShuffleDownPermutes<T>(s: seq<T>, picks: seq<nat>, i: int)
    requires ValidPicks(picks, |s|) && i < |s|
    ensures |ShuffleDown(s, picks, i)| == |s|
    ensures multiset(ShuffleDown(s, picks, i)) == multiset(s)
    decreases i
  {
    if i > 0 {
      SwapPermutes(s, i, picks[i]);
      ShuffleDownPermutes(Swap(s, i, picks[i]), picks, i - 1);
    }
  }

  lemma {:induction false} PairIdsOfSwap(s: seq<Card>, i: nat, j: nat)
    requires i < |s| && j < |s|
    ensures PairIds(Swap(s, i, j)) == Swap(PairIds(s), i, j)
  {
    assert |PairIds(Swap(s, i, j))| == |Swap(PairIds(s), i, j)|;
    forall k | 0 <= k < |s|
      ensures PairIds(Swap(s, i, j))[k] == Swap(PairIds(s), i, j)[k]
    {
    }
  }

  lemma {:induction false} PairIdsOfShuffleDown(s: seq<Card>, picks: seq<nat>, i: int)
    requires ValidPicks(picks, |s|) && i < |s|
    ensures PairIds(ShuffleDown(s, picks, i)) == ShuffleDown(PairIds(s), picks, i)
    decreases i
  {
    if i > 0 {
      var j := picks[i];
      var ids := PairIds(s);
      PairIdsOfSwap(s, i, j);
      PairIdsOfShuffleDown(Swap(s, i, j), picks, i - 1);
      assert ShuffleDown(s, picks, i) == ShuffleDown(Swap(s, i, j), picks, i - 1);
      assert ShuffleDown(ids, picks, i) == ShuffleDown(Swap(ids, i, j), picks, i - 1);
    }
  }

  /** Shuffling the cards moves their pair identities exactly as it moves
      the cards. */
  lemma ShuffleMovesPairIds(s: seq<Card>, picks: seq<nat>)
    requires ValidPicks(picks, |s|)
    ensures PairIds(Shuffled(s, picks)) == Shuffled(PairIds(s), picks)
  {
    var ids := PairIds(s);
    PairIdsOfShuffleDown(s, picks, |s| - 1);
    assert Shuffled(s, picks) == ShuffleDown(s, picks, |s| - 1);
    assert Shuffled(ids, picks) == ShuffleDown(ids, picks, |ids| - 1);
  }

  /** Each catalog id keeps its number of occurrences through the shuffle. */
  lemma ShuffleKeepsPairIds(s: seq<Card>, picks: seq<nat>)
    requires ValidPicks(picks, |s|)
    ensures multiset(PairIds(Shuffled(s, picks))) == multiset(PairIds(s))
  {
    ShuffleMovesPairIds(s, picks);
  }

  /** The swap indices that never move anything: round i picks i itself. */
  function IdentityPicks(n: nat): (picks: seq<nat>)
    ensures ValidPicks(picks, n)
    ensures forall i :: 0 <= i < n ==> picks[i] == i
  {
    seq(n, i => i)
  }

  lemma {:induction false} ShuffleDownIdentity<T>(s: seq<T>, i: int)
    requires i < |s|
    ensures ShuffleDown(s, IdentityPicks(|s|), i) == s
    decreases i
  {
    if i > 0 {
      assert Swap(s, i, i) == s;
      ShuffleDownIdentity(s, i - 1);
    }
  }

  /** Drawing j = i in every round leaves the deck in its unshuffled order. */
  lemma ShuffleIdentity<T>(s: seq<T>)
    ensures Shuffled(s, IdentityPicks(|s|)) == s
  {
    ShuffleDownIdentity(s, |s| - 1);
  }
  lemma {:induction false} ShuffleDownUsesRoundsUpTo<T>(s: seq<T>, p: seq<nat>, q: seq<nat>, i: int)
    requires ValidPicks(p, |s|) && ValidPicks(q, |s|) && i < |s|
    requires forall k :: 0 <= k <= i ==> p[k] == q[k]
    ensures ShuffleDown(s, p, i) == ShuffleDown(s, q, i)
    decreases i
  {
    if i > 0 {
      ShuffleDownUsesRoundsUpTo(Swap(s, i, p[i]), p, q, i - 1);
    }
  }

  /** With nothing left to swap, two rows that agree above position i
      and hold the same values at 0..i (at most one position) are equal. */
  lemma SameWhenNoRoundsLeft<T>(s: seq<T>, t: seq<T>, i: int)
    requires |s| == |t| && -1 <= i <= 0 && i < |s|
    requires multiset(s[..i + 1]) == multiset(t[..i + 1]) && s[i + 1..] == t[i + 1..]
    ensures s == t
  {
    if i == -1 {
      assert s == s[0..] && t == t[0..];
    } else {
      assert s[..1] == [s[0]] && t[..1] == [t[0]];
      assert s[0] in multiset{t[0]};
      assert s == [s[0]] + s[1..] && t == [t[0]] + t[1..];
    }
  }

  /** Removing the same last value from two rows with equal contents leaves equal contents. */
  lemma DropLastSame<T>(a: seq<T>, b: seq<T>, x: T)
    requires multiset(a + [x]) == multiset(b + [x])
    ensures multiset(a) == multiset(b)
  {
    calc {
      multiset(a);
      multiset(a + [x]) - multiset{x};
      multiset(b + [x]) - multiset{x};
      multiset(b);
    }
  }

  /** Swapping into position i a value t[i] found at j <= i leaves a row
      holding t's values below i. */
  lemma SwapIntoPlaceBelow<T>(s: seq<T>, t: seq<T>, i: nat, j: nat)
    requires |s| == |t| && j <= i < |s| && s[j] == t[i]
    requires multiset(s[..i + 1]) == multiset(t[..i + 1])
    ensures multiset(Swap(s, i, j)[..i]) == multiset(t[..i])
  {
    var s' := Swap(s, i, j);
    assert s'[..i + 1] == Swap(s[..i + 1], i, j);
    SwapPermutes(s[..i + 1], i, j);
    assert s'[..i + 1] == s'[..i] + [t[i]];
    assert t[..i + 1] == t[..i] + [t[i]];
    DropLastSame(s'[..i], t[..i], t[i]);
  }

  /** Swapping into position i a value t[i] found at j <= i leaves a row
      that agrees with `t` from position i on. */
  lemma SwapIntoPlaceAbove<T>(s: seq<T>, t: seq<T>, i: nat, j: nat)
    requires |s| == |t| && j <= i < |s| && s[j] == t[i]
    requires s[i + 1..] == t[i + 1..]
    ensures Swap(s, i, j)[i..] == t[i..]
  {
    var s' := Swap(s, i, j);
    assert s'[i + 1..] == s[i + 1..];
    assert s'[i..] == [t[i]] + s'[i + 1..];
    assert t[i..] == [t[i]] + t[i + 1..];
  }

  /** A value among t's first i+1 entries is among s's first i+1 entries. */
  lemma FindSource<T>(s: seq<T>, t: seq<T>, i: nat) returns (j: nat)
    requires |s| == |t| && i < |s| && multiset(s[..i + 1]) == multiset(t[..i + 1])
    ensures j <= i && s[j] == t[i]
  {
    assert t[..i + 1][i] == t[i];
    assert t[i] in multiset(s[..i + 1]);
    assert t[i] in s[..i + 1];
    var k :| 0 <= k < i + 1 && s[..i + 1][k] == t[i];
    j := k;
  }

  /** Choosing j for round i, then the rounds below as `rest` chooses them. */
  lemma ExtendPicks<T>(s: seq<T>, rest: seq<nat>, i: nat, j: nat)
    requires ValidPicks(rest, |s|) && 0 < i < |s| && j <= i
    ensures ValidPicks(rest[i := j], |s|)
    ensures ShuffleDown(s, rest[i := j], i) == ShuffleDown(Swap(s, i, j), rest, i - 1)
  {
    var picks := rest[i := j];
    assert picks[i] == j;
    ShuffleDownUsesRoundsUpTo(Swap(s, i, j), picks, rest, i - 1);
  }

  /** Rounds i, ..., 1 can turn `s` into any `t` that agrees with it above
      position i and holds the same values at positions 0..i. */
  lemma {:induction false} ShuffleDownReaches<T>(s: seq<T>, t: seq<T>, i: int) returns (picks: seq<nat>)
    requires |s| == |t| && -1 <= i < |s|
    requires multiset(s[..i + 1]) == multiset(t[..i + 1]) && s[i + 1..] == t[i + 1..]
    ensures ValidPicks(picks, |s|) && ShuffleDown(s, picks, i) == t
    decreases i
  {
    if i <= 0 {
      picks := IdentityPicks(|s|);
      SameWhenNoRoundsLeft(s, t, i);
    } else {
      var j := FindSource(s, t, i);
      SwapIntoPlaceBelow(s, t, i, j);
      SwapIntoPlaceAbove(s, t, i, j);
      var s' := Swap(s, i, j);
      var rest := ShuffleDownReaches(s', t, i - 1);
      ExtendPicks(s, rest, i, j);
      picks := rest[i := j];
    }
  }

  /** Every rearrangement of the deck is the outcome of some choice of swap
      indices: the shuffle can produce each permutation of its input. */
  lemma EveryArrangementReachable<T>(s: seq<T>, t: seq<T>)
    requires multiset(s) == multiset(t)
    ensures exists picks :: ValidPicks(picks, |s|) && Shuffled(s, picks) == t
  {
    assert |s| == |multiset(s)| == |t|;
    assert s[..|s|] == s && t[..|t|] == t;
    var picks := ShuffleDownReaches(s, t, |s| - 1);
  }
  /** Position j of the unshuffled deck: the first copy holds ids 1..K in
      order, the second copy repeats them. */
  lemma DeckEntry(d: Difficulty, j: int)
    requires 0 <= j < 2 * PairCount(d)
    ensures |BuildDeck(d)| == 2 * PairCount(d)
    ensures BuildDeck(d)[j] == Card(j, if j < PairCount(d) then j + 1 else j - PairCount(d) + 1, false)
  {
    var ids := SelectedIds(d);
    assert (ids + ids)[j] == if j < |ids| then ids[j] else ids[j - |ids|];
  }

  lemma ArrangedCardsInRange(cards: seq<Card>, d: Difficulty)
    requires multiset(cards) == multiset(BuildDeck(d))
    ensures |cards| == 2 * PairCount(d)
    ensures forall i :: 0 <= i < |cards| ==> 1 <= cards[i].originalId <= PairCount(d) && !cards[i].matched
  {
    var deck := BuildDeck(d);
    DeckEntry(d, 0);
    assert |cards| == |multiset(cards)| == |deck|;
    forall i | 0 <= i < |cards|
      ensures 1 <= cards[i].originalId <= PairCount(d) && !cards[i].matched
    {
      assert cards[i] in multiset(deck);
      var j :| 0 <= j < |deck| && deck[j] == cards[i];
      DeckEntry(d, j);
    }
  }

  lemma ArrangedCardsCoverIds(cards: seq<Card>, d: Difficulty)
    requires multiset(cards) == multiset(BuildDeck(d))
    ensures forall x :: 1 <= x <= PairCount(d) ==> x in PairIds(cards)
  {
    var deck := BuildDeck(d);
    forall x | 1 <= x <= PairCount(d)
      ensures x in PairIds(cards)
    {
      DeckEntry(d, x - 1);
      var c := deck[x - 1];
      assert c in multiset(cards);
      var i :| 0 <= i < |cards| && cards[i] == c;
      assert PairIds(cards)[i] == x;
    }
  }

  /** What every arrangement of a difficulty's deck has in common: 2K cards,
      none matched, every pair id in 1..K, and every id of 1..K on some card. */
  lemma ArrangementFacts(cards: seq<Card>, d: Difficulty)
    requires multiset(cards) == multiset(BuildDeck(d))
    ensures |cards| == 2 * PairCount(d)
    ensures forall i :: 0 <= i < |cards| ==> 1 <= cards[i].originalId <= PairCount(d) && !cards[i].matched
    ensures forall x :: 1 <= x <= PairCount(d) ==> x in PairIds(cards)
  {
    ArrangedCardsInRange(cards, d);
    ArrangedCardsCoverIds(cards, d);
  }
}
