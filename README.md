# Session selection: a Dafny model

This project models the session-selection core of a broadcast node,
`server/selection.go`. The pool manager gives the selector newly found
sessions (`Add`) and scored sessions (`Complete`), and asks it for the next
session to send work to (`Select`). There are two selectors:

- `MinLSSelector` keeps unscored sessions in a slice and scored sessions in a
  binary min-heap keyed by latency score (`sessHeap`). `Select` returns the
  heap minimum when its score is within the good-enough bound `minLS`, or when
  no unscored session is left. Otherwise it draws an unscored session. Without
  a stake reader the draw is first-in-first-out. With one, it is a
  stake-weighted lottery, and the winner is removed by swapping it with the
  last entry.
- `LIFOSelector` is a single slice. `Add` prepends a batch, `Complete`
  appends, and `Select` takes the last entry.

Modules:

- `GoInt`: Go's `int64` and its wrap-around (`Wrap64`).
- `Sessions`: the session value (an identity, the stake-lookup address, the latency score) and `Option` for Go's nil.
- `Heap`: the `sessHeap` class over a `seq`, with sift-up and sift-down written out.
- `Stake`: the stake reader's answer, the int64 total, the lottery walk, and the lemmas about them.
- `MinLS`: the `MinLSSelector` class.
- `Lifo`: the `LIFOSelector` class.
- `Scenarios`: client methods that drive a fresh selector and state what they observe.

The random draw `rand.Int63n(totalStake)` is a parameter `draw` of `Select`.
The precondition `DrawFits` requires `0 <= draw < totalStake` whenever the
reader answered and the int64 total is positive. What the stake reader answers
is also a parameter (`StakeRead`): either an error, or a map from address to
int64 stake. An address missing from the map reads as 0, as a Go map lookup
does.

Two behaviours of the code worth knowing, both modelled as the code has them:

- `LIFOSelector`: `Add([A, B])` then `Select()` returns B, the last entry of the list (`Scenarios.LifoReusesWarmSession`).
- The stake reader is passed one address per unscored session, duplicates included. The total counts each returned address once, while the walk subtracts a shared address once per session (`Stake.SumStakes`, `Stake.Prefix`).

## Model

| member | source | states |
|---|---|---|
| `GoInt.Wrap64` | server/selection.go:154-157 | the int64 value Go stores for a mathematical result: the result itself when it is in range, and always congruent to it modulo 2^64 |
| `GoInt.WrapAddCongruent` | server/selection.go:155-156 | wrapping an intermediate sum does not change the final wrapped value, so a running int64 sum or difference equals the wrapped mathematical one |
| `Heap.RootIsMinimum` | server/selection.go:57-60 | in a heap-ordered slice, index 0 scores no higher than any entry |
| `Heap.DownStep` | server/selection.go:114 | one swap of sift-down, with the lower-scoring child that beats its parent, keeps the sift-down invariant one level lower |
| `Heap.DownDone` | server/selection.go:114 | sift-down may stop when no child scores strictly lower than the current entry: the prefix is then heap-ordered |
| `Heap.SessHeap.constructor` | server/selection.go:81-82 | a new heap is empty and heap-ordered |
| `Heap.SessHeap.Len` | server/selection.go:22-24 | the number of sessions held, duplicates included |
| `Heap.SessHeap.Less` | server/selection.go:26-28 | when i sorts before j their scores differ; when it does not, j scores no higher than i |
| `Heap.SessHeap.LessIsStrictWeakOrder` | server/selection.go:26-28 | `Less` is the strict weak order `container/heap` relies on: irreflexive, asymmetric and transitive, and two entries are incomparable exactly when their scores tie |
| `Heap.SessHeap.Swap` | server/selection.go:30-32 | exchanges two entries and keeps the same multiset |
| `Heap.SessHeap.Push` | server/selection.go:34-37 | appends the session at the end and changes nothing else |
| `Heap.SessHeap.Pop` | server/selection.go:39-50 | removes and returns the last entry; the rest keeps its order |
| `Heap.SessHeap.Peek` | server/selection.go:52-61 | None exactly on an empty heap; otherwise entry 0, which is a minimum whenever the heap is ordered |
| `Heap.SessHeap.Up` | server/selection.go:97-99 | sift-up of the entry just appended restores the heap order without changing the multiset |
| `Heap.SessHeap.Down` | server/selection.go:39-42 | sift-down within the first n entries restores their order, leaves the entries from n on untouched and keeps the multiset |
| `Heap.SessHeap.HeapPush` | server/selection.go:97-99 | inserting keeps the heap order and adds exactly the session |
| `Heap.SessHeap.HeapPop` | server/selection.go:114 | returns the old entry 0, a minimum of the old heap, removes exactly it and keeps the heap order |
| `Stake.StakeOf` | server/selection.go:171 | the Go map lookup `stakes[addrs[i]]`: the returned stake for a returned address, 0 for any other |
| `Stake.Prefix` | server/selection.go:170-171 | the stakes subtracted from `r` over the first n sessions, one term per session; never negative when no returned stake is |
| `Stake.Crossed` | server/selection.go:171-173 | the `r <= 0` test after session i; while the counter has not wrapped, it holds exactly when the stakes so far reach the starting value |
| `Stake.DrawStartAsWritten` | server/selection.go:159-163 | `r` starts at the draw, which lies in `[0, totalStake)`, when the total is positive and at 0 otherwise; it is one below the corrected start |
| `Stake.DrawStart` | server/selection.go:159-163 | the corrected start: the draw plus one, which lies in `[1, totalStake]`, when the total is positive, and 0 otherwise |
| `Stake.SumOverRemove` | server/selection.go:154-157 | the per-address stake sum does not depend on the order in which the map is iterated |
| `Stake.SumStakes` | server/selection.go:154-157 | `totalStake` is the wrapped sum of all returned stakes, each address once, whatever order Go's map iteration takes |
| `Stake.FirstCrossing` | server/selection.go:165-180 | the winner is the first session at which the int64 counter, less the stakes of the sessions so far, is at most 0; None when there is no such session |
| `Stake.WeightedPick` | server/selection.go:165-180 | the loop that subtracts each session's stake from `r` returns exactly that first crossing |
| `Stake.PickStep` | server/selection.go:170-173 | one wrapping `r -=` step gives the counter after one more session, and the loop stops there exactly when that session is the first crossing |
| `Stake.PrefixMonotone` | server/selection.go:170-171 | with non-negative stakes the running sum of subtracted stakes is non-negative and grows |
| `Stake.PositiveBeforeCrossing` | server/selection.go:170-173 | before the first crossing, a counter started in `[1, MaxInt64]` has not wrapped and is still positive |
| `Stake.LotteryBands` | server/selection.go:159-180 | with the corrected start, session i wins exactly for the draws in `[Prefix(i), Prefix(i+1))` |
| `Stake.LotterySelectsIff` | server/selection.go:165-182 | with the corrected start, a winner exists exactly when the draw is below the summed stakes of all the sessions; otherwise nil |
| `Stake.ZeroStartPicksFirst` | server/selection.go:160-173 | when the total is not positive, `r` stays 0 and a first session with a non-negative stake wins |
| `Stake.SumOverNonNegative` | server/selection.go:154-157 | non-negative stakes give a non-negative total |
| `Stake.SumOverCovered` | server/selection.go:154-171 | if every positive-stake address belongs to some session, the per-session stakes add up to at least the total |
| `Stake.WellBehavedReaderAlwaysPicks` | server/selection.go:154-182 | for a reader with no negative stakes, no positive stake outside the queried sessions and no int64 overflow, the corrected lottery always picks a session |
| `Stake.PrefixIsSumOver` | server/selection.go:154-171 | without duplicate addresses, the stakes subtracted over all sessions equal the per-address total |
| `Stake.WinCountInBand` | server/selection.go:159-180 | counts the winning draws below n: exactly the part of session i's band below n |
| `Stake.StakeProportionalSelection` | server/selection.go:159-180 | corrected lottery, exact reader, distinct addresses: of the draws `0 .. totalStake-1`, exactly as many select session i as its stake |
| `Stake.AsWrittenFirstSessionWinsExtraDraw` | server/selection.go:159-173 | as written, the first session wins on every draw in `[0, stake]`, one draw more than its stake |
| `Stake.AsWrittenStarvesSecondSession` | server/selection.go:159-173 | as written, with stakes {A: 1, B: 1} both draws select A and B never wins; the corrected start selects B on draw 1 |
| `Stake.AsWrittenZeroStakeWins` | server/selection.go:159-173 | as written, with stakes {A: 0, B: 1} the only draw selects A, so the session with no stake always beats the staked one; the corrected start selects B |
| `Stake.AsWrittenLotteryBands` | server/selection.go:159-180 | as written, session 0 wins exactly the draws in `[0, Prefix(1)]` and a later session i exactly those in `(Prefix(i), Prefix(i+1)]` |
| `Stake.AsWrittenReaderAlwaysPicks` | server/selection.go:154-182 | for a reader with no negative stakes, no positive stake outside the queried sessions and no int64 overflow, the lottery as written always picks a session |
| `MinLS.SwapRemove` | server/selection.go:174-176 | removing entry i by swap-with-last leaves the old multiset minus that entry; every other position is unchanged except that the old last entry moves to i |
| `MinLS.Recipients` | server/selection.go:142-145 | `addrs[i]` is the address of unscored session i, for every i |
| `MinLS.UnknownDraw` | server/selection.go:130-183 | nothing is drawn from an empty slice; without a reader the first session is drawn and exactly the tail remains; a failed read draws nothing; otherwise the lottery as written (counter started at the draw) decides; a draw removes exactly the drawn session; drawing nothing changes nothing |
| `MinLS.TakesFromHeap` | server/selection.go:104-110 | `Select` pops the heap when it is not empty and either nothing is unscored or the minimum score is within `minLS`; it never does so for an empty heap, nor when the minimum exceeds the bound while unscored sessions remain |
| `MinLS.PoolShrinks` | server/selection.go:103-115 | taking one session from either collection shrinks the pool by exactly that session |
| `MinLS.MinLSSelector.constructor` | server/selection.go:80-89 | a new selector holds no sessions and keeps the given reader and bound |
| `MinLS.MinLSSelector.Size` | server/selection.go:118-120 | the number of sessions held, unscored plus scored |
| `MinLS.MinLSSelector.Add` | server/selection.go:92-94 | appends the batch to the unscored sessions; the heap is untouched; the size grows by the batch length |
| `MinLS.MinLSSelector.Complete` | server/selection.go:97-99 | adds the session to the heap only; the unscored sessions are untouched; the size grows by one |
| `MinLS.MinLSSelector.Select` | server/selection.go:103-115 | threshold routing: a heap minimum within the bound, or with nothing unscored, is popped and returned and the unscored sessions stay unchanged; otherwise the heap stays unchanged and the result is the unscored draw; a returned session leaves the pool, so the size drops by one; None changes nothing |
| `MinLS.MinLSSelector.Clear` | server/selection.go:123-127 | empties both collections and drops the stake reader; the size is 0 |
| `MinLS.MinLSSelector.SelectUnknownSession` | server/selection.go:130-183 | builds the address list, sums the stakes, runs the lottery with `r` started at the draw itself and removes the winner by swap-with-last, exactly as `UnknownDraw` says |
| `Lifo.LIFOSelector.constructor` | server/selection.go:186 | a new selector is empty |
| `Lifo.LIFOSelector.Add` | server/selection.go:189-191 | the batch is prepended in its own order |
| `Lifo.LIFOSelector.Complete` | server/selection.go:194-196 | the session is appended at the back |
| `Lifo.LIFOSelector.Select` | server/selection.go:199-205 | returns the last session and leaves exactly the prefix before it |
| `Lifo.LIFOSelector.Size` | server/selection.go:208-210 | the number of sessions held |
| `Lifo.LIFOSelector.Clear` | server/selection.go:213-215 | leaves no sessions, so the size is 0 |
| `Scenarios.OfflineDrawsInAddOrder` | server/selection.go:135-140 | without a stake reader, repeated selects return the unscored sessions in `Add` order, then None |
| `Scenarios.ThresholdPrefersUnscored` | server/selection.go:110-111 | with bound 50, one scored session at 80 and two unscored sessions, the first unscored session is returned |
| `Scenarios.GoodEnoughScoreWins` | server/selection.go:109-114 | a scored session within the bound is returned before any unscored one |
| `Scenarios.FailedReadKeepsPool` | server/selection.go:147-152 | a failed stake read returns None and both sessions stay in the pool |
| `Scenarios.ClearEmptiesPool` | server/selection.go:123-127 | after `Clear` the size is 0 and `Select` returns None |
| `Scenarios.LifoReusesWarmSession` | server/selection.go:189-205 | after `Add([a, b])` LIFO returns b; a session completed next is returned before a |
| `Scenarios.LifoEarlierBatchFirst` | server/selection.go:189-205 | a batch added later sits in front, so the earlier batch is used up first |

## Findings

| source | as written | input that shows it | evidently intended | confidence | as-written member | corrected member |
|---|---|---|---|---|---|---|
| server/selection.go:159-173 | `r` is drawn from `[0, totalStake)` and the first session with `r - prefix <= 0` wins, so session 0 wins on `stake0 + 1` draws and every later session's band is shifted up by one draw, the last positive one losing a draw | reader returns {A: 0, B: 1} for unscored sessions [A, B]: total 1, the only draw 0 selects A, so the unstaked session always wins and the staked one never does | "stake weighted random selection" (line 128): a session with a greater stake is more likely to be selected (the comment at lines 166-169), which stake-proportional selection gives; fixed by starting `r` at the draw plus one | high; not executed | `Stake.AsWrittenZeroStakeWins` | `Stake.StakeProportionalSelection` |

The selector classes run the code as written (`Stake.DrawStartAsWritten`).
The corrected start (`Stake.DrawStart`) is used only by the lemmas about the
intended lottery: `Stake.LotteryBands`, `Stake.LotterySelectsIff`,
`Stake.WellBehavedReaderAlwaysPicks`, `Stake.WinCountInBand` and
`Stake.StakeProportionalSelection`. `Stake.AsWrittenLotteryBands` gives the
bands the code has instead. With a zero total, both starts are 0.

## Left out

- `pm/stub.go` is not part of this model: it is a test double for the payment subsystem with no selection logic.
- The error log call at line 150 is dropped; only the nil return is modelled.
- `math/rand.Int63n` is replaced by the `draw` parameter and its precondition.
- `ethcommon.BytesToAddress` of the ticket recipient is not modelled: the session carries its address as an opaque byte sequence.
- Floating point is not modelled: latency scores and `minLS` are reals, so NaN, which Go's `<` and `>` treat specially, is not covered.
- Go's `container/heap` is not part of this model. `Up`, `Down`, `HeapPush` and `HeapPop` follow its standard sift-up and sift-down. Its `down` returns a flag that `heap.Pop` ignores, and the model drops that flag.
- The stake reader's own work (chain or network reads) is not modelled. Its answer is an input, and the model does not tie that answer to the addresses passed in.
- Concurrency is left out: the source documents the selector as not safe for concurrent use.
- Slice aliasing is left out. Sessions are values, not pointers. So the model does not capture `append` writing into a caller's spare capacity in `LIFOSelector.Add`. It does not capture the slices sharing a backing array after `unknownSessions[1:]`. It does not capture a latency score changing while its session sits in the heap.
- `Lifo.LIFOSelector.Select`: requires a non-empty list, because the source indexes it without a check and panics.
- Draining: the model proves the no-loss, no-duplication equation for each call. It does not state the equation for a whole sequence of calls.
