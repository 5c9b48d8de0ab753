/** The state machine of the memory-game component. The component's state
    variables are the fields of `Block`; each event handler is a method.
    The two delayed callbacks a second flip schedules are kept in `pending`
    and delivered by the explicit steps `ResolveMatch` and `ResolveMismatch`;
    the one-second interval is the step `Tick`, and the completion effect
    is the step `CompletionEffect`. */
module Game {
  import opened Deck
  import opened Rules
  import GameStats

  class Block {
    var cards: seq<Card>
    /** Board positions currently turned over, in the order they were clicked. */
    var flippedCards: seq<int>
    /** Catalog ids of the pairs found so far, in the order they were found. */
    var matchedPairs: seq<int>
    var moves: nat
    var gameStarted: bool
    var gameCompleted: bool
    var timeElapsed: nat
    var difficulty: Difficulty
    /** Delayed callbacks scheduled by second flips and not yet delivered. */
    var pending: seq<Resolution>

    /** What holds in every reachable state of the component as written:
        the board is an arrangement of the deck for the difficulty, and at
        most two distinct positions of it are turned over. */
    ghost predicate WellFormed()
      reads this`cards, this`flippedCards, this`difficulty
    {
      && multiset(cards) == multiset(BuildDeck(difficulty))
      && |flippedCards| <= 2
      && Distinct(flippedCards)
      && (forall n :: 0 <= n < |flippedCards| ==> 0 <= flippedCards[n] < |cards|)
    }

    /** Matched pairs are distinct catalog ids of the board. */
    ghost predicate MatchesAreNewPairs()
      reads this`matchedPairs, this`difficulty
    {
      && Distinct(matchedPairs)
      && (forall x :: x in matchedPairs ==> 1 <= x <= PairCount(difficulty))
    }

    /** No turned-over card belongs to a matched pair, and exactly one
        resolution is pending while two cards are turned over: the
        comparison of those two cards. */
    ghost predicate TurnedOverAwaitResolution()
      requires WellFormed()
      reads this`cards, this`flippedCards, this`difficulty, this`matchedPairs, this`pending
    {
      && (forall n :: 0 <= n < |flippedCards| ==> cards[flippedCards[n]].originalId !in matchedPairs)
      && |pending| == (if |flippedCards| == 2 then 1 else 0)
      && (|flippedCards| == 2 ==> pending[0] == Compare(cards[flippedCards[0]], cards[flippedCards[1]]))
    }

    /** Every found or pending pair has cost a move, and nothing has
        happened before the first click. */
    ghost predicate CountersAgree()
      reads this`matchedPairs, this`pending, this`moves, this`gameStarted, this`flippedCards, this`timeElapsed
    {
      && |matchedPairs| + |pending| <= moves
      && (!gameStarted ==> flippedCards == [] && matchedPairs == [] && moves == 0 && timeElapsed == 0)
    }

    /** The game is marked complete only when the completion test holds. */
    ghost predicate CompletedOnlyWhenComplete()
      reads this`gameCompleted, this`matchedPairs, this`cards
    {
      gameCompleted ==> IsComplete(|matchedPairs|, |cards|)
    }

    /** The game invariant. */
    ghost predicate Valid()
      reads this
    {
      && WellFormed()
      && MatchesAreNewPairs()
      && TurnedOverAwaitResolution()
      && CountersAgree()
      && CompletedOnlyWhenComplete()
    }

    /** Mounting the component: the initial state values, then the deck for
        the default difficulty built and shuffled with the swap indices `picks`. */
    constructor (picks: seq<nat>)
      requires ValidPicks(picks, 2 * PairCount(Medium))
      ensures Valid() && difficulty == Medium
      ensures cards == Shuffled(BuildDeck(Medium), picks)
      ensures flippedCards == [] && matchedPairs == [] && moves == 0 && pending == []
      ensures !gameStarted && !gameCompleted && timeElapsed == 0
    {
      difficulty := Medium;
      new;
      InitializeGame(picks);
    }

    /** The new-game routine as the component has it: a freshly built and
        shuffled deck and all counters reset, while callbacks already
        scheduled stay scheduled. */
    method InitializeGameAsWritten(picks: seq<nat>)
      requires ValidPicks(picks, 2 * PairCount(difficulty))
      modifies this`cards, this`flippedCards, this`matchedPairs, this`moves,
               this`gameStarted, this`gameCompleted, this`timeElapsed
      ensures WellFormed()
      ensures cards == Shuffled(BuildDeck(difficulty), picks)
      ensures flippedCards == [] && matchedPairs == [] && moves == 0
      ensures !gameStarted && !gameCompleted && timeElapsed == 0
    {
      var deck := BuildDeck(difficulty);
      var gameCards := new Card[|deck|](i requires 0 <= i < |deck| => deck[i]);
      assert gameCards[..] == deck;
      Shuffle(gameCards, picks);
      cards := gameCards[..];
      flippedCards := [];
      matchedPairs := [];
      moves := 0;
      gameStarted := false;
      gameCompleted := false;
      timeElapsed := 0;
    }

    /** A new game that also cancels the callbacks still scheduled by the
        discarded game, so that none of them can touch the new board. */
    method InitializeGame(picks: seq<nat>)
      requires ValidPicks(picks, 2 * PairCount(difficulty))
      modifies this
      ensures Valid() && difficulty == old(difficulty)
      ensures cards == Shuffled(BuildDeck(difficulty), picks)
      ensures flippedCards == [] && matchedPairs == [] && moves == 0 && pending == []
      ensures !gameStarted && !gameCompleted && timeElapsed == 0
    {
      InitializeGameAsWritten(picks);
      pending := [];
    }

    /** Choosing a difficulty as the component has it: the new difficulty
        makes the mount effect run the new-game routine as written, so the
        callbacks the old game scheduled stay scheduled; choosing the current
        difficulty changes nothing, as the state does not change. */
    method ChangeDifficultyAsWritten(d: Difficulty, picks: seq<nat>)
      requires WellFormed() && ValidPicks(picks, 2 * PairCount(d))
      modifies this`difficulty, this`cards, this`flippedCards, this`matchedPairs, this`moves,
               this`gameStarted, this`gameCompleted, this`timeElapsed
      ensures WellFormed() && pending == old(pending)
      ensures d == old(difficulty) ==> unchanged(this)
      ensures d != old(difficulty) ==>
        && difficulty == d
        && cards == Shuffled(BuildDeck(d), picks)
        && flippedCards == [] && matchedPairs == [] && moves == 0
        && !gameStarted && !gameCompleted && timeElapsed == 0
    {
      if d != difficulty {
        difficulty := d;
        InitializeGameAsWritten(picks);
      }
    }

    /** Choosing a difficulty with the corrected new game, which also drops
        the old game's callbacks; choosing the current one changes nothing. */
    method ChangeDifficulty(d: Difficulty, picks: seq<nat>)
      requires WellFormed() && ValidPicks(picks, 2 * PairCount(d))
      modifies this
      ensures WellFormed() && (old(Valid()) ==> Valid())
      ensures d == old(difficulty) ==> unchanged(this)
      ensures d != old(difficulty) ==>
        && Valid() && difficulty == d
        && cards == Shuffled(BuildDeck(d), picks)
        && flippedCards == [] && matchedPairs == [] && moves == 0 && pending == []
        && !gameStarted && !gameCompleted && timeElapsed == 0
    {
      if d != difficulty {
        difficulty := d;
        InitializeGame(picks);
      }
    }

    /** A click on board position `cardIndex`. The first click starts the
        game even when the guards then ignore it. An accepted click turns the
        card over; a second card turned over costs a move and schedules the
        resolution of the comparison. */
    method HandleCardClick(cardIndex: int)
      requires WellFormed() && 0 <= cardIndex < |cards|
      modifies this`gameStarted, this`flippedCards, this`moves, this`pending
      ensures WellFormed() && (old(Valid()) ==> Valid())
      ensures gameStarted
      ensures old(ClickIgnored(cards, flippedCards, matchedPairs, cardIndex)) ==>
        flippedCards == old(flippedCards) && moves == old(moves) && pending == old(pending)
      ensures !old(ClickIgnored(cards, flippedCards, matchedPairs, cardIndex)) ==>
        && flippedCards == old(flippedCards) + [cardIndex]
        && moves == old(moves) + (if |flippedCards| == 2 then 1 else 0)
        && pending == old(pending) +
             (if |flippedCards| == 2 then [Compare(cards[flippedCards[0]], cards[flippedCards[1]])] else [])
    {
      StartOnFirstClick();
      if |flippedCards| == 2 {
        return;
      }
      if cardIndex in flippedCards {
        return;
      }
      if cards[cardIndex].originalId in matchedPairs {
        return;
      }
      TurnOver(cardIndex);
    }

    /** The first click of a game starts it. */
    method StartOnFirstClick()
      requires WellFormed()
      modifies this`gameStarted
      ensures WellFormed() && (old(Valid()) ==> Valid())
      ensures gameStarted
    {
      if !gameStarted {
        gameStarted := true;
      }
    }

    /** The part of a click past the guards: the card joins the turned-over
        cards, and when it is the second one the move is counted and the
        comparison's callback is scheduled. */
    method TurnOver(cardIndex: int)
      requires WellFormed() && 0 <= cardIndex < |cards| && gameStarted
      requires !ClickIgnored(cards, flippedCards, matchedPairs, cardIndex)
      modifies this`flippedCards, this`moves, this`pending
      ensures WellFormed() && (old(Valid()) ==> Valid())
      ensures flippedCards == old(flippedCards) + [cardIndex]
      ensures moves == old(moves) + (if |flippedCards| == 2 then 1 else 0)
      ensures pending == old(pending) +
        (if |flippedCards| == 2 then [Compare(cards[flippedCards[0]], cards[flippedCards[1]])] else [])
    {
      assert |flippedCards| < 2 && cardIndex !in flippedCards && cards[cardIndex].originalId !in matchedPairs;
      var newFlippedCards := flippedCards + [cardIndex];
      flippedCards := newFlippedCards;
      if |newFlippedCards| == 2 {
        moves := moves + 1;
        var firstCard := cards[newFlippedCards[0]];
        var secondCard := cards[newFlippedCards[1]];
        if firstCard.originalId == secondCard.originalId {
          pending := pending + [Match(firstCard.originalId)];
        } else {
          pending := pending + [Mismatch];
        }
      }
    }

    /** Delivery of the scheduled match callback number `k`: its pair id is
        recorded as matched and the turned-over cards are cleared. */
    method ResolveMatch(k: nat)
      requires WellFormed() && k < |pending| && pending[k].Match?
      modifies this`matchedPairs, this`flippedCards, this`pending
      ensures WellFormed() && (old(Valid()) ==> Valid())
      ensures matchedPairs == old(matchedPairs) + [old(pending[k]).pairId]
      ensures flippedCards == []
      ensures pending == old(pending[..k] + pending[k + 1..])
    {
      ghost var wasValid := Valid();
      var id := pending[k].pairId;
      if wasValid {
        PendingMatchIsNewPair(this, k);
      }
      var remaining := pending[..k] + pending[k + 1..];
      assert wasValid ==> remaining == [];
      pending := remaining;
      matchedPairs := matchedPairs + [id];
      flippedCards := [];
    }

    /** Delivery of the scheduled mismatch callback number `k`: the
        turned-over cards are cleared and nothing is recorded. */
    method ResolveMismatch(k: nat)
      requires WellFormed() && k < |pending| && pending[k] == Mismatch
      modifies this`flippedCards, this`pending
      ensures WellFormed() && (old(Valid()) ==> Valid())
      ensures flippedCards == []
      ensures pending == old(pending[..k] + pending[k + 1..])
    {
      ghost var wasValid := Valid();
      var remaining := pending[..k] + pending[k + 1..];
      assert wasValid ==> remaining == [];
      pending := remaining;
      flippedCards := [];
    }

    /** One second of the interval timer, which runs only between the first
        click and completion. */
    method Tick()
      requires WellFormed()
      modifies this`timeElapsed
      ensures WellFormed() && (old(Valid()) ==> Valid())
      ensures timeElapsed == old(timeElapsed) + if gameStarted && !gameCompleted then 1 else 0
    {
      if gameStarted && !gameCompleted {
        timeElapsed := timeElapsed + 1;
      }
    }

    /** The completion effect: when the completion test holds the game is
        marked complete and the completion message is produced. */
    method CompletionEffect() returns (message: Option<CompletionMessage>)
      requires WellFormed()
      modifies this`gameCompleted
      ensures WellFormed() && (old(Valid()) ==> Valid())
      ensures IsComplete(|matchedPairs|, |cards|) ==>
        gameCompleted && message == Some(CompletionPayload(difficulty, moves, timeElapsed, |matchedPairs|))
      ensures !IsComplete(|matchedPairs|, |cards|) ==>
        gameCompleted == old(gameCompleted) && message == None
    {
      var totalPairs := |cards| as real / 2.0;
      if |matchedPairs| as real == totalPairs && totalPairs > 0.0 {
        gameCompleted := true;
        message := Some(CompletionPayload(difficulty, moves, timeElapsed, |matchedPairs|));
      } else {
        message := None;
      }
    }
  }

  lemma AppendKeepsDistinct(s: seq<int>, x: int)
    requires Distinct(s) && x !in s
    ensures Distinct(s + [x])
  {
  }

  /** In a valid state a scheduled match is the only callback pending, it
      belongs to the two turned-over cards, and it records a pair of the
      board that has not been matched yet, so the game is not complete. */
  lemma PendingMatchIsNewPair(b: Block, k: nat)
    requires b.Valid() && k < |b.pending| && b.pending[k].Match?
    ensures k == 0 && |b.pending| == 1 && |b.flippedCards| == 2
    ensures var id := b.pending[0].pairId;
      && id == b.cards[b.flippedCards[0]].originalId
      && id !in b.matchedPairs && 1 <= id <= PairCount(b.difficulty)
      && Distinct(b.matchedPairs + [id])
    ensures !b.gameCompleted
  {
    var id := b.pending[0].pairId;
    ArrangementFacts(b.cards, b.difficulty);
    DistinctInRange(b.matchedPairs, PairCount(b.difficulty));
    assert b.cards[b.flippedCards[0]].originalId == id;
    AppendKeepsDistinct(b.matchedPairs, id);
  }

  /** In a valid state the completion test holds exactly when the pair of
      every card on the board has been matched. */
  lemma CompleteIffAllMatched(b: Block)
    requires b.Valid()
    ensures IsComplete(|b.matchedPairs|, |b.cards|)
        <==> forall i :: 0 <= i < |b.cards| ==> b.cards[i].originalId in b.matchedPairs
  {
    ArrangementFacts(b.cards, b.difficulty);
    CompleteIffEveryPairMatched(b.cards, b.matchedPairs, PairCount(b.difficulty));
  }

  /** Once the completion test holds, no card is turned over, no callback is
      pending, every card is shown face up and no card takes clicks. */
  lemma CompletedBoardIsSettled(b: Block)
    requires b.Valid() && IsComplete(|b.matchedPairs|, |b.cards|)
    ensures b.flippedCards == [] && b.pending == []
    ensures forall i :: 0 <= i < |b.cards| ==>
      && IsCardFlipped(b.cards, b.flippedCards, b.matchedPairs, i)
      && IsCardDisabled(b.cards, b.flippedCards, b.matchedPairs, i)
      && ClickIgnored(b.cards, b.flippedCards, b.matchedPairs, i)
  {
    // Names the first turned-over position, so that the invariant's clause
    // about turned-over cards and the all-matched fact meet on one card.
    ghost var first := if |b.flippedCards| > 0 then b.flippedCards[0] else 0;
    CompleteIffAllMatched(b);
  }

  /** In a valid state the accuracy sent on completion is a percentage, and
      the corrected panel accuracy is the same percentage. */
  lemma CompletionAccuracyBounded(b: Block)
    requires b.Valid() && b.moves > 0
    ensures CompletionAccuracy(|b.matchedPairs|, b.moves) <= 100
    ensures GameStats.Accuracy(|b.matchedPairs|, b.moves) == CompletionAccuracy(|b.matchedPairs|, b.moves)
  {
    CompletionAccuracyIsPercentage(|b.matchedPairs|, b.moves);
    GameStats.AccuracyIsPercentage(|b.matchedPairs|, b.moves);
  }

  /** On a board where every move found a pair, the panel as written shows
      200% while the completion message reports 100%. */
  lemma PanelDisagreesOnPerfectBoard(b: Block)
    requires b.Valid() && 0 < b.moves == |b.matchedPairs|
    ensures GameStats.AccuracyAsWritten(|b.matchedPairs|, b.moves) == 200
    ensures CompletionAccuracy(|b.matchedPairs|, b.moves) == 100
  {
    GameStats.PerfectGameShowsTwoHundred(b.moves);
    CompletionAccuracyIsPercentage(|b.matchedPairs|, b.moves);
  }

  /** The easy deck in catalog order, as laid out with `IdentityPicks(8)`. */
  const EasyInOrder: seq<int> := [1, 2, 3, 4, 1, 2, 3, 4]

  /** The easy deck laid out unshuffled: pair ids 1, 2, 3, 4, 1, 2, 3, 4. */
  lemma EasyDeckInOrder()
    ensures PairIds(Shuffled(BuildDeck(Easy), IdentityPicks(8))) == EasyInOrder
  {
    DeckShape(Easy);
    ShuffleIdentity(BuildDeck(Easy));
    PairIdsOfDoubled(SelectedIds(Easy));
    assert SelectedIds(Easy) == [1, 2, 3, 4];
  }

  /** The player turns over positions i and j, two cards of a pair not yet
      matched: the move is counted and a match callback is scheduled. */
  method TurnOverPair(b: Block, i: int, j: int)
    requires b.WellFormed() && 0 <= i < |b.cards| && 0 <= j < |b.cards| && i != j
    requires b.cards[i].originalId == b.cards[j].originalId && b.cards[i].originalId !in b.matchedPairs
    requires b.flippedCards == []
    modifies b
    ensures b.WellFormed() && b.cards == old(b.cards) && b.matchedPairs == old(b.matchedPairs)
    ensures b.flippedCards == [i, j] && b.pending == old(b.pending) + [Match(b.cards[i].originalId)]
  {
    b.HandleCardClick(i);
    assert b.flippedCards == [i];
    b.HandleCardClick(j);
    assert b.flippedCards == [i] + [j];
  }

  /** A new game with the routine as written, with swap indices that leave
      the deck unshuffled, on a board that already lies in deck order. */
  method ResetInOrderAsWritten(b: Block)
    requires b.WellFormed() && b.cards == BuildDeck(b.difficulty)
    modifies b
    ensures b.WellFormed() && b.cards == old(b.cards) && b.difficulty == old(b.difficulty)
    ensures b.flippedCards == [] && b.matchedPairs == [] && b.pending == old(b.pending)
  {
    var deck := BuildDeck(b.difficulty);
    DeckShape(b.difficulty);
    ShuffleIdentity(deck);
    b.InitializeGameAsWritten(IdentityPicks(|deck|));
  }

  /** The player matches pair 1 (positions 0 and 4), starts a new game with
      the routine as written before the match callback has fired, and
      matches pair 1 again: two match callbacks are now scheduled. */
  method MatchThenResetAsWritten(b: Block)
    requires b.WellFormed() && b.difficulty == Easy && b.cards == BuildDeck(b.difficulty)
    requires PairIds(b.cards) == EasyInOrder
    requires b.flippedCards == [] && b.matchedPairs == [] && b.pending == []
    modifies b
    ensures b.WellFormed() && PairIds(b.cards) == EasyInOrder && b.matchedPairs == []
    ensures b.flippedCards == [0, 4] && b.pending == [Match(1), Match(1)]
  {
    assert b.cards[0].originalId == 1 && b.cards[4].originalId == 1;
    TurnOverPair(b, 0, 4);
    ResetInOrderAsWritten(b);
    TurnOverPair(b, 0, 4);
  }

  /** The player finds pair `id` at positions i and j and its match callback fires. */
  method FindPair(b: Block, i: int, j: int, id: int)
    requires b.WellFormed() && 0 <= i < |b.cards| && 0 <= j < |b.cards| && i != j
    requires b.cards[i].originalId == id && b.cards[j].originalId == id && id !in b.matchedPairs
    requires b.flippedCards == [] && b.pending == []
    modifies b
    ensures b.WellFormed() && b.cards == old(b.cards)
    ensures b.matchedPairs == old(b.matchedPairs) + [id]
    ensures b.flippedCards == [] && b.pending == []
  {
    TurnOverPair(b, i, j);
    b.ResolveMatch(0);
  }

  /** A component mounted with the default difficulty, then switched to
      the easy difficulty with swap indices that leave the deck unshuffled. */
  method MountEasyInOrder() returns (b: Block)
    ensures fresh(b) && b.WellFormed() && b.difficulty == Easy && b.cards == BuildDeck(b.difficulty)
    ensures PairIds(b.cards) == EasyInOrder
    ensures b.flippedCards == [] && b.matchedPairs == [] && b.pending == []
  {
    var d := Medium;
    DeckShape(d);
    b := new Block(IdentityPicks(|BuildDeck(d)|));
    d := Easy;
    var deck := BuildDeck(d);
    DeckShape(d);
    ShuffleIdentity(deck);
    b.ChangeDifficulty(d, IdentityPicks(|deck|));
    EasyDeckInOrder();
  }

  /** Both scheduled match callbacks of pair 1 fire. */
  method DeliverBoth(b: Block)
    requires b.WellFormed() && b.matchedPairs == [] && |b.pending| == 2
    requires b.pending[0] == Match(1) && b.pending[1] == Match(1)
    modifies b
    ensures b.WellFormed() && b.cards == old(b.cards) && b.matchedPairs == [1, 1]
    ensures b.flippedCards == [] && b.pending == []
  {
    b.ResolveMatch(0);
    b.ResolveMatch(0);
  }

  /** Both scheduled match callbacks of pair 1 fire, then the player finds
      pairs 2 and 3. */
  method DeliverBothThenFindTwoPairs(b: Block)
    requires b.WellFormed() && PairIds(b.cards) == EasyInOrder && b.matchedPairs == []
    requires b.flippedCards == [0, 4] && b.pending == [Match(1), Match(1)]
    modifies b
    ensures b.WellFormed() && |b.cards| == 8 && b.matchedPairs == [1, 1, 2, 3]
  {
    DeliverBoth(b);
    ghost var ids := PairIds(b.cards);
    assert ids[1] == 2 && ids[5] == 2 && ids[2] == 3 && ids[6] == 3;
    FindPair(b, 1, 5, 2);
    FindPair(b, 2, 6, 3);
  }

  /** The play of the scenario below up to the completion effect. */
  method PlayAcrossStaleReset() returns (b: Block)
    ensures fresh(b) && b.WellFormed() && |b.cards| == 8 && b.matchedPairs == [1, 1, 2, 3]
  {
    b := MountEasyInOrder();
    MatchThenResetAsWritten(b);
    DeliverBothThenFindTwoPairs(b);
  }

  /** A new game started while a match callback of the previous game is
      still scheduled, with the component as written: the stale callback
      records pair 1 on the new board, the player's own match of pair 1 then
      records it a second time, and after pairs 2 and 3 the completion test
      holds although pair 4 has never been found. */
  method StaleMatchAfterReset() returns (matched: seq<int>, completed: bool, message: Option<CompletionMessage>)
    ensures matched == [1, 1, 2, 3]
    ensures !Distinct(matched) && 4 !in matched
    ensures completed && message.Some?
  {
    var b := PlayAcrossStaleReset();
    assert IsComplete(|b.matchedPairs|, |b.cards|);
    message := b.CompletionEffect();
    matched := b.matchedPairs;
    completed := b.gameCompleted;
    assert matched[0] == matched[1];
  }
}
