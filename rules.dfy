/** The pure expressions of the game component: the click guards, the
    display predicates, the completion test, the score, the rounded
    accuracy and the completion payload, with the counting facts about
    matched pairs that the completion test rests on. */
module Rules {
  import opened Deck

  datatype Option<T> = None | Some(value: T)

  /** What a pending delayed callback will do when it fires: a match
      records the pair's catalog id, a mismatch only turns the cards back. */
  datatype Resolution = Match(pairId: int) | Mismatch

  /** The comparison made when the second card of a move is turned over. */
  function Compare(first: Card, second: Card): (r: Resolution)
    ensures r.Match? <==> first.originalId == second.originalId
    ensures r.Match? ==> r.pairId == first.originalId && r.pairId == second.originalId
  {
    if first.originalId == second.originalId then Match(first.originalId) else Mismatch
  }

  /** No value occurs twice. */
  predicate Distinct(s: seq<int>)
  {
    forall i, j :: 0 <= i < j < |s| ==> s[i] != s[j]
  }

  /** The three guards of the click handler: two cards are already face up,
      the clicked card is one of them, or its pair is already matched. The
      handler ignores exactly the clicks on cards the board shows face up or
      disabled. */
  predicate ClickIgnored(cards: seq<Card>, flipped: seq<int>, matched: seq<int>, cardIndex: int)
    requires 0 <= cardIndex < |cards|
    ensures ClickIgnored(cards, flipped, matched, cardIndex)
        <==> IsCardFlipped(cards, flipped, matched, cardIndex) || IsCardDisabled(cards, flipped, matched, cardIndex)
  {
    |flipped| == 2 || cardIndex in flipped || cards[cardIndex].originalId in matched
  }

  /** A card is shown face up while it is turned over or once its pair is
      matched; an index with no card behind it has no matched pair. */
  predicate IsCardFlipped(cards: seq<Card>, flipped: seq<int>, matched: seq<int>, cardIndex: int)
    ensures !(0 <= cardIndex < |cards|) ==> (IsCardFlipped(cards, flipped, matched, cardIndex) <==> cardIndex in flipped)
    ensures IsCardFlipped(cards, flipped, matched, cardIndex) && cardIndex !in flipped ==>
      0 <= cardIndex < |cards| && cards[cardIndex].originalId in matched
  {
    cardIndex in flipped || (0 <= cardIndex < |cards| && cards[cardIndex].originalId in matched)
  }

  /** A card does not take clicks while two cards are turned over or once
      its pair is matched; an index with no card behind it is disabled only
      while two cards are turned over. */
  predicate IsCardDisabled(cards: seq<Card>, flipped: seq<int>, matched: seq<int>, cardIndex: int)
    ensures !(0 <= cardIndex < |cards|) ==> (IsCardDisabled(cards, flipped, matched, cardIndex) <==> |flipped| == 2)
    ensures IsCardDisabled(cards, flipped, matched, cardIndex) && |flipped| != 2 ==>
      0 <= cardIndex < |cards| && cards[cardIndex].originalId in matched
  {
    |flipped| == 2 || (0 <= cardIndex < |cards| && cards[cardIndex].originalId in matched)
  }

  /** The click handler ignores exactly the clicks on disabled cards and on
      the card already turned over; a disabled card is always ignored. */
  lemma IgnoredIffDisabledOrFlipped(cards: seq<Card>, flipped: seq<int>, matched: seq<int>, cardIndex: int)
    requires 0 <= cardIndex < |cards|
    ensures ClickIgnored(cards, flipped, matched, cardIndex)
        <==> IsCardDisabled(cards, flipped, matched, cardIndex) || cardIndex in flipped
    ensures IsCardDisabled(cards, flipped, matched, cardIndex) ==> ClickIgnored(cards, flipped, matched, cardIndex)
  {
  }

  /** The completion test: the number of matched pairs equals half the
      number of cards, and that half is positive. The halving is the
      source's division of numbers, hence the reals. */
  predicate IsComplete(matchedCount: nat, cardCount: nat)
    ensures IsComplete(matchedCount, cardCount) <==> 2 * matchedCount == cardCount && cardCount > 0
  {
    var totalPairs := cardCount as real / 2.0;
    matchedCount as real == totalPairs && totalPairs > 0.0
  }

  /** The score reported on completion: 1000 less 10 per move and 1 per
      second, never below 100. */
  function Score(moves: nat, timeElapsed: nat): (r: int)
    ensures 100 <= r <= 1000
    ensures r >= 1000 - 10 * moves - timeElapsed
    ensures r == 1000 - 10 * moves - timeElapsed || r == 100
  {
    var raw := 1000 - moves * 10 - timeElapsed;
    if raw > 100 then raw else 100
  }

  /** Each extra move or second never raises the score. */
  lemma ScoreNeverRewardsDelay(moves: nat, timeElapsed: nat, moves': nat, timeElapsed': nat)
    requires moves <= moves' && timeElapsed <= timeElapsed'
    ensures Score(moves', timeElapsed') <= Score(moves, timeElapsed)
  {
  }

  /** p / q rounded to the nearest integer, halves rounded up. */
  function RoundHalfUp(p: nat, q: nat): (r: nat)
    requires q > 0
    ensures 2 * q * r <= 2 * p + q < 2 * q * (r + 1)
  {
    var d := 2 * q;
    var r := (2 * p + q) / d;
    assert (2 * p + q) == d * r + (2 * p + q) % d;
    r
  }

  lemma LessAfterScaling(c: int, a: int, b: int)
    requires c > 0 && c * a < c * b
    ensures a < b
  {
  }

  lemma MulMonotone(c: nat, a: nat, b: nat)
    requires a <= b
    ensures c * a <= c * b
  {
  }

  /** Rounding keeps the order of the numerators. */
  lemma RoundHalfUpMonotone(a: nat, b: nat, q: nat)
    requires q > 0 && a <= b
    ensures RoundHalfUp(a, q) <= RoundHalfUp(b, q)
  {
    var ra, rb := RoundHalfUp(a, q), RoundHalfUp(b, q);
    assert 2 * q * ra < 2 * q * (rb + 1);
    LessAfterScaling(2 * q, ra, rb + 1);
  }

  /** A whole multiple of the denominator rounds to its multiplier. */
  lemma RoundHalfUpExact(k: nat, q: nat)
    requires q > 0
    ensures RoundHalfUp(k * q, q) == k
  {
    var r := RoundHalfUp(k * q, q);
    var c := 2 * q;
    assert c * (k + 1) == 2 * (k * q) + c;
    assert c * k == 2 * (k * q);
    LessAfterScaling(c, r, k + 1);
    LessAfterScaling(c, k, r + 1);
  }

  /** A rounded ratio of at most 1 is at most 1 once rounded, and a ratio of exactly 1 stays 1. */
  lemma RoundHalfUpOfFraction(p: nat, q: nat, scale: nat)
    requires q > 0 && p <= q
    ensures RoundHalfUp(scale * p, q) <= scale
    ensures p == q ==> RoundHalfUp(scale * p, q) == scale
  {
    MulMonotone(scale, p, q);
    RoundHalfUpMonotone(scale * p, scale * q, q);
    assert scale * q == q * scale;
    RoundHalfUpExact(scale, q);
  }

  /** The accuracy sent with the completion event: matched pairs per move
      as a rounded percentage, counting no moves as one move. */
  function CompletionAccuracy(matchedCount: nat, moves: nat): (r: nat)
    ensures moves == 0 ==> r == 100 * matchedCount
    ensures moves > 0 ==> 2 * moves * r <= 200 * matchedCount + moves < 2 * moves * (r + 1)
  {
    RoundHalfUp(100 * matchedCount, if moves == 0 then 1 else moves)
  }

  /** While every matched pair has cost a move, the completion accuracy is
      a percentage, and exactly 100 when no move missed. */
  lemma CompletionAccuracyIsPercentage(matchedCount: nat, moves: nat)
    requires matchedCount <= moves && moves > 0
    ensures CompletionAccuracy(matchedCount, moves) <= 100
    ensures matchedCount == moves ==> CompletionAccuracy(matchedCount, moves) == 100
  {
    RoundHalfUpOfFraction(matchedCount, moves, 100);
  }

  /** The message posted to the embedding page when the game is complete. */
  datatype CompletionMessage = CompletionMessage(
    kind: string, blockId: string, completed: bool,
    score: int, maxScore: int, timeSpent: nat,
    difficulty: Difficulty, moves: nat, timeElapsed: nat, accuracy: nat)

  const CompletionKind: string := "BLOCK_COMPLETION"
  const BlockId: string := "6853c6e77405ab9cb3e4cf03"
  const MaxScore: int := 1000

  /** The completion payload for a finished game. */
  function CompletionPayload(difficulty: Difficulty, moves: nat, timeElapsed: nat, matchedCount: nat): (m: CompletionMessage)
    ensures m.completed && m.kind == CompletionKind && m.blockId == BlockId
    ensures m.score == Score(moves, timeElapsed) && 100 <= m.score <= m.maxScore == MaxScore
    ensures m.timeSpent == m.timeElapsed == timeElapsed && m.moves == moves && m.difficulty == difficulty
    ensures m.accuracy == CompletionAccuracy(matchedCount, moves)
    ensures moves == 0 ==> m.accuracy == 100 * matchedCount
    ensures 0 < moves && matchedCount <= moves ==> m.accuracy <= 100
  {
    var m := CompletionMessage(CompletionKind, BlockId, true,
      Score(moves, timeElapsed), MaxScore, timeElapsed,
      difficulty, moves, timeElapsed, CompletionAccuracy(matchedCount, moves));
    if 0 < moves && matchedCount <= moves then
      CompletionAccuracyIsPercentage(matchedCount, moves); m
    else
      m
  }

  /** `s` without position p. */
  function RemoveAt(s: seq<int>, p: nat): (r: seq<int>)
    requires p < |s|
    ensures |r| == |s| - 1
    ensures forall x :: x in r ==> x in s
    ensures Distinct(s) ==> Distinct(r) && forall x :: x in r <==> x in s && x != s[p]
  {
    var r := s[..p] + s[p + 1..];
    assert forall i :: 0 <= i < |r| ==> r[i] == if i < p then s[i] else s[i + 1];
    r
  }

  /** Pigeonhole for matched pairs: distinct ids drawn from 1..k number at
      most k, and exactly k when every id of 1..k is among them. */
  lemma {:induction false} DistinctInRange(s: seq<int>, k: nat)
    requires Distinct(s) && forall x :: x in s ==> 1 <= x <= k
    ensures |s| <= k
    ensures |s| == k <==> forall x :: 1 <= x <= k ==> x in s
  {
    if s == [] {
      if k > 0 {
        assert 1 !in s;
      }
    } else {
      assert s[0] in s;
      assert 1 <= s[0] <= k;
      if k in s {
        var p :| 0 <= p < |s| && s[p] == k;
        var r := RemoveAt(s, p);
        DistinctInRange(r, k - 1);
        if |s| == k {
          forall x | 1 <= x <= k
            ensures x in s
          {
            if x < k {
              assert x in r;
            }
          }
        }
      } else {
        DistinctInRange(s, k - 1);
      }
    }
  }

  /** Once every card lies in 1..k and every id of 1..k is on some card,
      the completion test holds exactly when the pair of every card is
      matched, given that matched ids are distinct ids of 1..k. */
  lemma CompleteIffEveryPairMatched(cards: seq<Card>, matched: seq<int>, k: nat)
    requires k > 0 && |cards| == 2 * k
    requires forall i :: 0 <= i < |cards| ==> 1 <= cards[i].originalId <= k
    requires forall x :: 1 <= x <= k ==> x in PairIds(cards)
    requires Distinct(matched) && forall x :: x in matched ==> 1 <= x <= k
    ensures IsComplete(|matched|, |cards|)
        <==> forall i :: 0 <= i < |cards| ==> cards[i].originalId in matched
  {
    DistinctInRange(matched, k);
    if forall i :: 0 <= i < |cards| ==> cards[i].originalId in matched {
      forall x | 1 <= x <= k
        ensures x in matched
      {
        var ids := PairIds(cards);
        assert x in ids;
        var i :| 0 <= i < |ids| && ids[i] == x;
        assert cards[i].originalId in matched;
      }
    }
  }
}
