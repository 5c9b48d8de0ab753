# WWII memory game — a verified model of the game logic

The game is a React component. It deals a board of face-down cards, two per
catalog entry, and shuffles them. The player turns cards over two at a time.
A pair that shows the same entry stays face up and a pair that does not is
turned back. The game is complete when every pair has been found. Three
difficulties play with 4, 6 or 8 pairs. A one-second timer and a move counter
feed a score and an accuracy figure. On completion a message goes to the
embedding page. A statistics panel shows the elapsed time as `m:ss` and its
own accuracy percentage.

The model has four modules:

- `Deck` (deck.dfy) covers the card catalog, the deck for each difficulty and
  the Fisher-Yates shuffle.
  - The shuffle is an in-place method on an array. It is specified by the
    function `Shuffled`.
  - The random index drawn in each round is an input. `picks[i]` is the index
    drawn in round `i`, and it must satisfy `picks[i] <= i`.
- `Rules` (rules.dfy) holds the pure expressions of the component: the three
  click guards, `isCardFlipped` and `isCardDisabled`, the completion test, the
  score, the rounded accuracy and the completion message. It also holds the
  pigeonhole facts on matched pairs that the completion test rests on.
- `Game` (game.dfy) holds the class `Block`. Its fields are the component's
  state variables.
  - Every event handler is a method.
  - The two delayed callbacks that a second flip schedules are kept in the
    field `pending`. The steps `ResolveMatch(k)` and `ResolveMismatch(k)`
    deliver callback `k`, in whatever order the caller chooses.
  - The interval timer is the step `Tick`. The completion effect is the step
    `CompletionEffect`.
  - `WellFormed()` holds in every reachable state of the code as written.
  - `Valid()` is the game invariant:
    - matched pairs are distinct ids of the board;
    - a callback is pending exactly while two cards are face up;
    - every found pair has cost a move;
    - the game is marked complete only when the completion test holds.
- `GameStats` (game_stats.dfy) holds the time formatting and the panel's
  accuracy.
  - `ParseTime` reads the `m:ss` form back. It is not in the program. It is
    the inverse that the round-trip property of `FormatTime` is stated
    against.

Math.round is modelled as round-half-up of the exact quotient. It is
`RoundHalfUp(p, q)`, characterised by `2qr <= 2p + q < 2q(r + 1)`.

## Model

| member | source | states |
|---|---|---|
| Deck.SelectedIds | src/block.tsx:75-85 | A difficulty selects a prefix of the catalog with one entry per pair of the difficulty. Entry i carries catalog id i+1. |
| Deck.Doubled | src/block.tsx:88-93 | The selection spread twice has two cards per selected entry. |
| Deck.BuildDeck | src/block.tsx:75-93 | The unshuffled deck of a difficulty has two cards per pair of that difficulty. |
| Deck.PairIdsOfDoubled | src/block.tsx:88-93 | The pair ids of the doubled deck are the selected ids followed by the same ids again. |
| Deck.DoubledShape | src/block.tsx:88-93 | The doubled deck of entries 1..n has 2n cards. Slot ids are 0..2n-1 in order and no card is matched. Each id of 1..n occurs exactly twice and no other id occurs. |
| Deck.DeckShape | src/block.tsx:75-93 | The unshuffled deck for a difficulty has 2K cards, with K = 4, 6 or 8. Slot ids run 0..2K-1. Every card is unmatched. Each catalog id 1..K appears exactly twice and no other id appears. |
| Deck.DeckEntry | src/block.tsx:88-93 | Slot j of the unshuffled deck is card (j, j+1) in the first copy and (j, j-K+1) in the second. It is unmatched. |
| Deck.Swap | src/block.tsx:98 | The destructuring swap exchanges positions i and j and leaves every other position as it was. |
| Deck.ShuffleDown | src/block.tsx:96-99 | The rounds i down to 1 keep the length of the row. |
| Deck.ShuffleDownKeepsAbove | src/block.tsx:96-99 | The rounds i down to 1 never touch a position above i, because round i swaps i with an index at most i. |
| Deck.Shuffled | src/block.tsx:96-99 | Whatever indices are drawn, the shuffle returns a permutation of its input: same length, same multiset. |
| Deck.Shuffle | src/block.tsx:96-99 | The in-place loop leaves the array equal to `Shuffled` of its old contents under the drawn indices. |
| Deck.ShuffleDownPermutes | src/block.tsx:96-99 | Any run of the rounds i down to 1 keeps the length and the multiset of the row. |
| Deck.PairIdsOfSwap | src/block.tsx:98 | Swapping two cards swaps their pair ids in the same way. |
| Deck.PairIdsOfShuffleDown | src/block.tsx:96-99 | The rounds move the cards' pair ids exactly as they move the cards. |
| Deck.ShuffleMovesPairIds | src/block.tsx:88-99 | The pair ids of the shuffled deck are the shuffled pair ids of the deck. |
| Deck.ShuffleKeepsPairIds | src/block.tsx:88-99 | Shuffling keeps the number of occurrences of every pair id. |
| Deck.ShuffleIdentity | src/block.tsx:96-99 | Drawing j = i in every round leaves the deck in its unshuffled order. |
| Deck.ShuffleDownReaches | src/block.tsx:96-99 | Rounds i..1 can turn a row into any row with the same values in 0..i that agrees above i. It returns the indices that do so. |
| Deck.EveryArrangementReachable | src/block.tsx:96-99 | Every permutation of the deck is the outcome of some valid choice of indices. |
| Deck.ArrangementFacts | src/block.tsx:75-99 | Every arrangement of a difficulty's deck has 2K unmatched cards with pair ids in 1..K. Every id of 1..K is on some card. |
| Rules.Compare | src/block.tsx:142-157 | The second flip schedules a match exactly when both cards share an originalId. The match carries that id. |
| Rules.ClickIgnored | src/block.tsx:132-134 | The three guards ignore a click exactly when the card is shown face up or disabled. |
| Rules.IsCardFlipped | src/block.tsx:186-188 | A card not turned over shows face up only when its pair is matched. An index without a card shows face up only while it is in the flipped list, since `cards[i]?.originalId` is then undefined. |
| Rules.IsCardDisabled | src/block.tsx:190-192 | While fewer than two cards are turned over, only cards of a matched pair are disabled. An index without a card is disabled only while two cards are turned over. |
| Rules.IgnoredIffDisabledOrFlipped | src/block.tsx:132-134 | The guards ignore a click exactly when the card is disabled or already turned over. A disabled card never takes a click. |
| Rules.IsComplete | src/block.tsx:163-164 | The completion test holds iff twice the matched count equals the card count and the board is not empty. |
| Rules.Score | src/block.tsx:171 | The score lies in 100..1000. It is 1000 - 10·moves - seconds unless that is below 100, where it is 100. |
| Rules.ScoreNeverRewardsDelay | src/block.tsx:171 | More moves or more seconds never raise the score. |
| Rules.RoundHalfUp | src/block.tsx:178 | Math.round of p/q is the r with 2qr <= 2p + q < 2q(r+1). |
| Rules.RoundHalfUpMonotone | src/block.tsx:178 | Rounding keeps the order of numerators. |
| Rules.RoundHalfUpExact | src/block.tsx:178 | A whole multiple k·q rounds to k. |
| Rules.RoundHalfUpOfFraction | src/block.tsx:178 | A ratio of at most 1 scales to at most `scale` after rounding. A ratio of exactly 1 scales to `scale`. |
| Rules.CompletionAccuracy | src/block.tsx:178 | The accuracy sent is matched/moves as a rounded percentage. Zero moves counts as one. |
| Rules.CompletionAccuracyIsPercentage | src/block.tsx:178 | While every matched pair has cost a move, the sent accuracy is at most 100. It is exactly 100 when no move missed. |
| Rules.CompletionPayload | src/block.tsx:167-180 | The message has the completion tag, the block id and completed = true. Its score is `Score(moves, timeElapsed)`, within 100..maxScore with maxScore = 1000. Its accuracy is `CompletionAccuracy(matched, moves)`, at most 100 while every match has cost a move. timeSpent = timeElapsed, and difficulty and moves are passed through. |
| Rules.DistinctInRange | src/block.tsx:163-165 | Distinct ids drawn from 1..k number at most k, and exactly k iff every id of 1..k is among them. |
| Rules.CompleteIffEveryPairMatched | src/block.tsx:163-165 | On a board whose ids cover 1..k, with distinct matched ids in 1..k, the completion test holds iff every card's pair is matched. |
| Game.Block.constructor | src/block.tsx:63-70 | The initial state values, followed by the mount-time new game at the default medium difficulty: deck shuffled, counters zero, nothing flipped or pending, invariant established. |
| Game.Block.InitializeGameAsWritten | src/block.tsx:73-108 | New game as written: the board is the shuffled deck and every counter and flag is reset. Scheduled callbacks are left in place. |
| Game.Block.InitializeGame | src/block.tsx:101-107 | New game that also drops scheduled callbacks. It establishes the game invariant. |
| Game.Block.ChangeDifficultyAsWritten | src/block.tsx:108-113 | As written, a new difficulty runs the new-game routine at that difficulty and leaves the old game's scheduled callbacks in place. Choosing the current difficulty changes nothing. |
| Game.Block.ChangeDifficulty | src/block.tsx:108-113 | The corrected difficulty change: a new difficulty starts a new game at that difficulty that also drops scheduled callbacks, and the game invariant holds. Choosing the current difficulty changes nothing. |
| Game.Block.HandleCardClick | src/block.tsx:127-159 | The click always starts the game. A guarded click changes nothing else. An accepted click appends the slot, counts a move on the second flip and schedules the comparison. The game invariant is kept. |
| Game.Block.StartOnFirstClick | src/block.tsx:128-130 | The first click sets gameStarted, before the guards run. |
| Game.Block.TurnOver | src/block.tsx:136-158 | The slot is appended to the flipped cards. When it is the second, moves grows by one and the comparison's callback is scheduled. Otherwise moves and pending are unchanged. |
| Game.Block.ResolveMatch | src/block.tsx:148-151 | A delivered match appends its pair id once and clears the flipped cards. It removes that callback. The matched ids stay distinct. |
| Game.Block.ResolveMismatch | src/block.tsx:154-156 | A delivered mismatch clears the flipped cards, removes that callback and leaves the matched pairs unchanged. |
| Game.Block.Tick | src/block.tsx:118-120 | timeElapsed grows by one only while the game is started and not completed. |
| Game.Block.CompletionEffect | src/block.tsx:162-184 | When the completion test holds, the game is marked complete and the completion message is produced. Otherwise nothing changes and no message is produced. |
| Game.PendingMatchIsNewPair | src/block.tsx:134-151 | In a valid state a scheduled match is the only pending callback. It belongs to the two face-up cards. Its pair is on the board and not yet matched, so the game is not complete. |
| Game.CompleteIffAllMatched | src/block.tsx:163-165 | In a valid state the completion test holds iff the pair of every card on the board is matched. |
| Game.CompletedBoardIsSettled | src/block.tsx:186-192 | Once complete, nothing is flipped or pending. Every card shows face up, is disabled and ignores clicks. |
| Game.CompletionAccuracyBounded | src/block.tsx:178 | In a valid state the sent accuracy is at most 100. The corrected panel accuracy equals it. |
| Game.PanelDisagreesOnPerfectBoard | src/GameStats.tsx:24 | On a board where every move found a pair, the panel as written shows 200 while the message reports 100. |
| Game.EasyDeckInOrder | src/block.tsx:75-93 | The easy deck laid out unshuffled reads pair ids 1,2,3,4,1,2,3,4. |
| Game.StaleMatchAfterReset | src/block.tsx:148-151 | A reset with a match still scheduled leads, as written, to matched pairs [1,1,2,3] with a duplicate and without pair 4. The completion test nevertheless fires. |
| GameStats.NatToString | src/GameStats.tsx:21 | Number-to-string gives a non-empty run of digits. It has one digit exactly below 10 and at most two below 100. |
| GameStats.NatToStringRoundTrip | src/GameStats.tsx:21 | The decimal numeral reads back as the number it was written from. |
| GameStats.PadStart | src/GameStats.tsx:21 | padStart keeps the string as the suffix, fills the front with the fill character and reaches at least the width. |
| GameStats.PaddedSeconds | src/GameStats.tsx:20-21 | The seconds field is exactly two digits, left-padded with '0', and reads back as the seconds. |
| GameStats.FormatTime | src/GameStats.tsx:18-22 | The result is digits, a colon, then exactly two digits. |
| GameStats.FormatTimeRoundTrip | src/GameStats.tsx:18-22 | Reading the result back gives mins·60 + secs = the seconds, with secs below 60. |
| GameStats.FormatTimeInjective | src/GameStats.tsx:18-22 | Different elapsed times are never displayed alike. |
| GameStats.FormatTimeOfZero | src/GameStats.tsx:18-22 | 0 seconds display as "0:00". |
| GameStats.FormatTimeOfSeventyFive | src/GameStats.tsx:18-22 | 75 seconds display as "1:15". |
| GameStats.AccuracyAsWritten | src/GameStats.tsx:24 | The panel's accuracy is 0 with no moves. Otherwise it is round(matches·200/moves). |
| GameStats.PerfectGameShowsTwoHundred | src/GameStats.tsx:24 | As written, a game without a miss shows 200. |
| GameStats.Accuracy | src/GameStats.tsx:24 | The corrected panel accuracy is 0 with no moves. Otherwise it is round(matches·100/moves). |
| GameStats.AccuracyIsPercentage | src/GameStats.tsx:24 | While every match has cost a move, the corrected accuracy is at most 100 and exactly 100 without a miss. It agrees with the sent accuracy once a move is made. |

## Left out

- Rendering is not modelled: the JSX, the inline CSS and the card component in src/GameCard.tsx are view code.
- Randomness is not modelled. The drawn index of each shuffle round is the input `picks`, and the uniformity of the draw is outside the model.
- Real time is not modelled. The 1000 ms and 1500 ms delays become the steps `ResolveMatch` and `ResolveMismatch`, and the one-second interval becomes `Tick`. Any scheduled callback may be delivered next.
- The messaging channel is not modelled. The completion message is returned as a value instead of being posted to the page and its parent.
- React's scheduling is not modelled:
  - how often effects re-run;
  - double invocation in development mode;
  - batching of state updates within one event.
  `CompletionEffect` is one run of the effect, and each click sees the state left by the previous step.
- Game.Block.CompletionEffect: whether the message is sent more than once per game depends on effect re-execution, which is not modelled.
- Rules.RoundHalfUp: it rounds the exact quotient, while the source rounds an IEEE double. For example, 29 pairs in 200 moves gives exactly 14.5, which rounds to 15. The double product is just below 14.5, so Math.round gives 14.
- The catalog's image URLs, titles and descriptions, and the component's title and description props, are not modelled. They play no part in the logic.
- The `matched` field of a card is never set to true by the program, and the model keeps it false as well. Face-up state comes from `matchedPairs`.

## Findings

| source | as written | input that shows it | evidently intended | confidence | as-written member | corrected member |
|---|---|---|---|---|---|---|
| src/block.tsx:101-107 | Starting a new game, or changing difficulty, resets the state but does not cancel callbacks scheduled by the previous game. A pending match then appends its pair id to the new game's matched pairs. | Easy game. Turn over pair 1, then press New Game within a second. Turn over pair 1 of the new board before the old callback fires. Both match callbacks fire. Then find pairs 2 and 3. The matched pairs are [1,1,2,3] and the game completes with pair 4 face down. | A new game discards every callback the old game scheduled. | high, not executed | Game.Block.InitializeGameAsWritten, Game.Block.ChangeDifficultyAsWritten, Game.StaleMatchAfterReset | Game.Block.InitializeGame, Game.Block.ChangeDifficulty |
| src/GameStats.tsx:24 | The panel's accuracy divides the matches by half the moves. A move already counts one pair of turned-over cards. | A perfect easy game: 4 matches in 4 moves shows 200. | matches / moves × 100, as the completion message computes it at src/block.tsx:178. | high, not executed | GameStats.AccuracyAsWritten, GameStats.PerfectGameShowsTwoHundred | GameStats.Accuracy, GameStats.AccuracyIsPercentage |
