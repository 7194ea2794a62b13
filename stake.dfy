/** The stake-weighted lottery over unscored sessions: the stake reader's answer,
    the int64 total of the returned stakes, and the walk that subtracts each
    session's stake from a random draw until the running value drops to zero. */
module Stake {
  import opened GoInt
  import opened Sessions

  /** What the stake reader returns for one query: an error, or a stake per address. */
  datatype StakeRead = ReadError | Stakes(stakes: map<Address, Int64>)

  /** A Go map lookup: an address the reader did not return reads as 0. */
  function StakeOf(m: map<Address, Int64>, a: Address): (s: Int64)
    ensures a in m ==> s == m[a]
    ensures a !in m ==> s == 0
    ensures NonNegative(m) ==> s >= 0
  {
    if a in m then m[a] else 0
  }

  /** Every stake the reader returned is non-negative. */
  ghost predicate NonNegative(m: map<Address, Int64>)
  {
    forall a :: a in m ==> m[a] >= 0
  }

  /** The mathematical sum of the stakes of `keys`, each address once. */
  ghost function SumOver(m: map<Address, Int64>, keys: set<Address>): int
    requires keys <= m.Keys
    decreases keys
  {
    if keys == {} then 0 else var a :| a in keys; m[a] + SumOver(m, keys - {a})
  }

  ghost function TotalStake(m: map<Address, Int64>): int
  {
    SumOver(m, m.Keys)
  }

  /** The sum does not depend on the order in which addresses are taken out. */
  lemma {:induction false} SumOverRemove(m: map<Address, Int64>, keys: set<Address>, a: Address)
    requires keys <= m.Keys && a in keys
    ensures SumOver(m, keys) == m[a] + SumOver(m, keys - {a})
    decreases keys
  {
    var b :| b in keys && SumOver(m, keys) == m[b] + SumOver(m, keys - {b});
    if b != a {
      SumOverRemove(m, keys - {b}, a);
      SumOverRemove(m, keys - {a}, b);
      assert keys - {b} - {a} == keys - {a} - {b};
    }
  }

  /** `totalStake`: the sum of the returned map's values, in whatever order Go's
      map iteration yields them, with int64 wrap-around. An address the reader
      returned counts once, however many sessions share it. */
  method SumStakes(m: map<Address, Int64>) returns (total: Int64)
    ensures total == Wrap64(TotalStake(m))
  {
    total := 0;
    var remaining := m.Keys;
    while remaining != {}
      invariant remaining <= m.Keys
      invariant total == Wrap64(SumOver(m, m.Keys - remaining))
      decreases remaining
    {
      var a :| a in remaining;
      var done := m.Keys - remaining;
      SumOverRemove(m, done + {a}, a);
      assert done + {a} - {a} == done;
      WrapAddCongruent(SumOver(m, done), m[a]);
      total := Wrap64(total + m[a]);
      remaining := remaining - {a};
      assert m.Keys - remaining == done + {a};
    }
    assert m.Keys - remaining == m.Keys;
  }

  /** The stakes of the first `n` sessions' addresses, one term per session (an
      address shared by two sessions is counted twice). */
  function Prefix(m: map<Address, Int64>, addrs: seq<Address>, n: nat): (p: int)
    requires n <= |addrs|
    ensures NonNegative(m) ==> p >= 0
  {
    if n == 0 then 0 else Prefix(m, addrs, n - 1) + StakeOf(m, addrs[n - 1])
  }

  /** After subtracting the stakes of sessions 0..i from the int64 counter that
      started at `start`, the counter is at most 0. */
  predicate Crossed(m: map<Address, Int64>, addrs: seq<Address>, start: int, i: nat): (b: bool)
    requires i < |addrs|
    ensures MinInt64 <= start - Prefix(m, addrs, i + 1) <= MaxInt64 ==>
      (b <==> start <= Prefix(m, addrs, i + 1))
  {
    Wrap64(start - Prefix(m, addrs, i + 1)) <= 0
  }

  /** The first session from `i` on at which the counter has dropped to zero or
      below; None when the walk runs off the end. */
  function FirstCrossing(m: map<Address, Int64>, addrs: seq<Address>, start: int, i: nat): (w: Option<nat>)
    requires i <= |addrs|
    ensures w.Some? ==> i <= w.value < |addrs| && Crossed(m, addrs, start, w.value)
    ensures w.Some? ==> forall j :: i <= j < w.value ==> !Crossed(m, addrs, start, j)
    ensures w.None? ==> forall j :: i <= j < |addrs| ==> !Crossed(m, addrs, start, j)
    decreases |addrs| - i
  {
    if i == |addrs| then None
    else if Crossed(m, addrs, start, i) then Some(i)
    else FirstCrossing(m, addrs, start, i + 1)
  }

  /** The walk of the source: decrement the int64 counter `r` by each session's
      stake in order and stop at the first session where it reaches zero or
      below. */
  method WeightedPick(m: map<Address, Int64>, addrs: seq<Address>, start: Int64) returns (w: Option<nat>)
    ensures w == FirstCrossing(m, addrs, start, 0)
  {
    var r: Int64 := start;
    for i := 0 to |addrs|
      invariant r == Wrap64(start - Prefix(m, addrs, i))
      invariant FirstCrossing(m, addrs, start, 0) == FirstCrossing(m, addrs, start, i)
    {
      PickStep(m, addrs, start, i, r);
      r := Wrap64(r - StakeOf(m, addrs[i]));
      if r <= 0 {
        return Some(i);
      }
    }
    return None;
  }

  /** One step of the walk: subtracting session `i`'s stake from the wrapped
      counter gives the wrapped counter after `i + 1` sessions, and the walk
      stops there exactly when session `i` is the first crossing from `i` on. */
  lemma PickStep(m: map<Address, Int64>, addrs: seq<Address>, start: int, i: nat, r: Int64)
    requires i < |addrs| && r == Wrap64(start - Prefix(m, addrs, i))
    ensures Wrap64(r - StakeOf(m, addrs[i])) == Wrap64(start - Prefix(m, addrs, i + 1))
    ensures Wrap64(r - StakeOf(m, addrs[i])) <= 0 <==> FirstCrossing(m, addrs, start, i) == Some(i)
  {
    WrapAddCongruent(start - Prefix(m, addrs, i), -(StakeOf(m, addrs[i]) as int));
  }

  /** The counter's starting value as the source sets it: the draw
      `rand.Int63n(totalStake)` itself, or 0 when the total is not positive.
      It is one below the corrected start. */
  function DrawStartAsWritten(total: Int64, draw: int): (s: int)
    ensures total > 0 && 0 <= draw < total ==> 0 <= s < total
    ensures total <= 0 ==> s == 0
    ensures total > 0 ==> s + 1 == DrawStart(total, draw)
  {
    if total > 0 then draw else 0
  }

  /** The corrected starting value: the draw plus one, so that with the source's
      `r <= 0` test each session wins on exactly as many draws as its stake. */
  function DrawStart(total: Int64, draw: int): (s: int)
    ensures total > 0 && 0 <= draw < total ==> 1 <= s <= total
    ensures total <= 0 ==> s == 0
  {
    if total > 0 then draw + 1 else 0
  }

  /** The random draw lies in `[0, totalStake)` whenever the reader answered
      and the int64 total is positive (it is not used otherwise). */
  ghost predicate DrawFits(read: StakeRead, draw: int)
  {
    read.Stakes? ==> var total := Wrap64(TotalStake(read.stakes));
      total > 0 ==> 0 <= draw < total
  }

  /** With non-negative stakes the prefix sums are non-negative and grow. */
  lemma {:induction false} PrefixMonotone(m: map<Address, Int64>, addrs: seq<Address>, i: nat, j: nat)
    requires NonNegative(m) && i <= j <= |addrs|
    ensures 0 <= Prefix(m, addrs, i) <= Prefix(m, addrs, j)
    decreases j
  {
    if i < j {
      PrefixMonotone(m, addrs, i, j - 1);
    } else if 0 < i {
      PrefixMonotone(m, addrs, i - 1, i - 1);
    }
  }

  /** Before the first crossing, the counter (started in `[1, MaxInt64]`) has
      never wrapped: its mathematical value is still positive. */
  lemma {:induction false} PositiveBeforeCrossing(m: map<Address, Int64>, addrs: seq<Address>, start: int, i: nat)
    requires NonNegative(m) && 1 <= start <= MaxInt64 && i <= |addrs|
    requires forall j :: 0 <= j < i ==> !Crossed(m, addrs, start, j)
    ensures start - Prefix(m, addrs, i) > 0
    decreases i
  {
    if i > 0 {
      PositiveBeforeCrossing(m, addrs, start, i - 1);
      PrefixMonotone(m, addrs, i - 1, i - 1);
      assert !Crossed(m, addrs, start, i - 1);
    }
  }

  /** The corrected lottery (counter started at draw + 1): session `i` wins
      exactly for the draws in `[Prefix(i), Prefix(i + 1))`, a band as wide as
      its stake. */
  lemma LotteryBands(m: map<Address, Int64>, addrs: seq<Address>, draw: int, i: nat)
    requires NonNegative(m) && 0 <= draw < MaxInt64 && i < |addrs|
    ensures FirstCrossing(m, addrs, draw + 1, 0) == Some(i)
        <==> Prefix(m, addrs, i) <= draw < Prefix(m, addrs, i + 1)
  {
    var start := draw + 1;
    PrefixMonotone(m, addrs, i, i + 1);
    var w := FirstCrossing(m, addrs, start, 0);
    if w == Some(i) {
      PositiveBeforeCrossing(m, addrs, start, i);
      assert Crossed(m, addrs, start, i);
    }
    if Prefix(m, addrs, i) <= draw < Prefix(m, addrs, i + 1) {
      forall j | 0 <= j < i
        ensures !Crossed(m, addrs, start, j)
      {
        PrefixMonotone(m, addrs, j + 1, i);
      }
      assert Crossed(m, addrs, start, i);
      assert w == Some(i);
    }
  }

  /** The corrected lottery finds a winner exactly when the draw is below the
      summed stakes of all the sessions. */
  lemma LotterySelectsIff(m: map<Address, Int64>, addrs: seq<Address>, draw: int)
    requires NonNegative(m) && 0 <= draw < MaxInt64
    ensures FirstCrossing(m, addrs, draw + 1, 0).Some? <==> draw < Prefix(m, addrs, |addrs|)
  {
    var w := FirstCrossing(m, addrs, draw + 1, 0);
    if w.None? {
      PositiveBeforeCrossing(m, addrs, draw + 1, |addrs|);
    } else {
      LotteryBands(m, addrs, draw, w.value);
      PrefixMonotone(m, addrs, w.value + 1, |addrs|);
    }
  }

  /** When the total is not positive the counter starts at 0, and a first
      session with a non-negative stake wins at once. */
  lemma ZeroStartPicksFirst(m: map<Address, Int64>, addrs: seq<Address>)
    requires |addrs| > 0 && StakeOf(m, addrs[0]) >= 0
    ensures FirstCrossing(m, addrs, 0, 0) == Some(0)
  {
    assert Prefix(m, addrs, 1) == StakeOf(m, addrs[0]);
    assert Crossed(m, addrs, 0, 0);
  }

  lemma {:induction false} SumOverNonNegative(m: map<Address, Int64>, keys: set<Address>)
    requires NonNegative(m) && keys <= m.Keys
    ensures SumOver(m, keys) >= 0
    decreases keys
  {
    if keys != {} {
      var a :| a in keys;
      SumOverRemove(m, keys, a);
      SumOverNonNegative(m, keys - {a});
    }
  }

  /** If every address with a positive stake belongs to one of the first `n`
      sessions, their stakes (per session) add up to at least the stakes of
      `keys` (per address). */
  lemma {:induction false} SumOverCovered(m: map<Address, Int64>, keys: set<Address>, addrs: seq<Address>, n: nat)
    requires NonNegative(m) && keys <= m.Keys && n <= |addrs|
    requires forall a :: a in keys && m[a] > 0 ==> a in addrs[..n]
    ensures SumOver(m, keys) <= Prefix(m, addrs, n)
    decreases n, keys
  {
    if n == 0 {
      if keys != {} {
        var a :| a in keys;
        SumOverRemove(m, keys, a);
        SumOverCovered(m, keys - {a}, addrs, 0);
      }
    } else {
      var a := addrs[n - 1];
      assert addrs[..n] == addrs[..n - 1] + [a];
      PrefixMonotone(m, addrs, n - 1, n);
      if a in keys {
        SumOverRemove(m, keys, a);
        SumOverCovered(m, keys - {a}, addrs, n - 1);
      } else {
        SumOverCovered(m, keys, addrs, n - 1);
      }
    }
  }

  /** A well-behaved reader (no negative stake, no positive stake for an
      address outside the queried sessions, no int64 overflow of the total)
      always lets the corrected lottery pick a session. */
  lemma WellBehavedReaderAlwaysPicks(m: map<Address, Int64>, addrs: seq<Address>, draw: int)
    requires NonNegative(m) && |addrs| > 0
    requires forall a :: a in m && m[a] > 0 ==> a in addrs
    requires TotalStake(m) <= MaxInt64
    requires DrawFits(Stakes(m), draw)
    ensures FirstCrossing(m, addrs, DrawStart(Wrap64(TotalStake(m)), draw), 0).Some?
  {
    SumOverNonNegative(m, m.Keys);
    var total := TotalStake(m);
    if total > 0 {
      assert addrs[..|addrs|] == addrs;
      SumOverCovered(m, m.Keys, addrs, |addrs|);
      LotterySelectsIff(m, addrs, draw);
    } else {
      ZeroStartPicksFirst(m, addrs);
    }
  }

  /** The lottery as written (counter started at the draw itself): the first
      session wins the draws in `[0, Prefix(1)]` and every later session `i`
      the draws in `(Prefix(i), Prefix(i + 1)]`, so the first band is one draw
      wider than its stake and the bands end one draw past the total. */
  lemma AsWrittenLotteryBands(m: map<Address, Int64>, addrs: seq<Address>, draw: int, i: nat)
    requires NonNegative(m) && 0 <= draw <= MaxInt64 && i < |addrs|
    ensures FirstCrossing(m, addrs, draw, 0) == Some(i)
        <==> (if i == 0 then 0 else Prefix(m, addrs, i) + 1) <= draw <= Prefix(m, addrs, i + 1)
  {
    PrefixMonotone(m, addrs, i, i + 1);
    if draw == 0 {
      ZeroStartPicksFirst(m, addrs);
      if i > 0 {
        PrefixMonotone(m, addrs, 1, i);
      }
    } else {
      LotteryBands(m, addrs, draw - 1, i);
    }
  }

  /** A well-behaved reader always lets the lottery as written pick a session. */
  lemma AsWrittenReaderAlwaysPicks(m: map<Address, Int64>, addrs: seq<Address>, draw: int)
    requires NonNegative(m) && |addrs| > 0
    requires forall a :: a in m && m[a] > 0 ==> a in addrs
    requires TotalStake(m) <= MaxInt64
    requires DrawFits(Stakes(m), draw)
    ensures FirstCrossing(m, addrs, DrawStartAsWritten(Wrap64(TotalStake(m)), draw), 0).Some?
  {
    var total := Wrap64(TotalStake(m));
    if total > 0 && draw > 0 {
      WellBehavedReaderAlwaysPicks(m, addrs, draw - 1);
    } else {
      ZeroStartPicksFirst(m, addrs);
    }
  }

  /** The addresses of the first `n` sessions. */
  function AddrSet(addrs: seq<Address>, n: nat): set<Address>
    requires n <= |addrs|
  {
    set k | 0 <= k < n :: addrs[k]
  }

  ghost predicate Distinct(addrs: seq<Address>)
  {
    forall j, k :: 0 <= j < k < |addrs| ==> addrs[j] != addrs[k]
  }

  /** Without duplicate addresses, the per-session prefix is the per-address sum. */
  lemma {:induction false} PrefixIsSumOver(m: map<Address, Int64>, addrs: seq<Address>, n: nat)
    requires n <= |addrs| && Distinct(addrs)
    requires forall k :: 0 <= k < n ==> addrs[k] in m
    ensures AddrSet(addrs, n) <= m.Keys
    ensures Prefix(m, addrs, n) == SumOver(m, AddrSet(addrs, n))
    decreases n
  {
    if n > 0 {
      PrefixIsSumOver(m, addrs, n - 1);
      var a := addrs[n - 1];
      assert AddrSet(addrs, n) == AddrSet(addrs, n - 1) + {a};
      assert AddrSet(addrs, n) - {a} == AddrSet(addrs, n - 1);
      SumOverRemove(m, AddrSet(addrs, n), a);
    } else {
      assert AddrSet(addrs, 0) == {};
    }
  }

  /** How many of the draws `0 .. n - 1` make the corrected lottery, for a
      reader whose int64 total is `total`, select session `i`. */
  ghost function WinCount(m: map<Address, Int64>, addrs: seq<Address>, total: Int64, i: nat, n: int): nat
    decreases n
  {
    if n <= 0 then 0
    else WinCount(m, addrs, total, i, n - 1)
         + (if FirstCrossing(m, addrs, DrawStart(total, n - 1), 0) == Some(i) then 1 else 0)
  }

  /** Up to `n <= total`, the winning draws counted are those of the band
      `[Prefix(i), Prefix(i + 1))` below `n`. */
  lemma {:induction false} WinCountInBand(m: map<Address, Int64>, addrs: seq<Address>, total: Int64, i: nat, n: nat)
    requires NonNegative(m) && i < |addrs| && 0 < total && n <= total
    ensures var lo, hi := Prefix(m, addrs, i), Prefix(m, addrs, i + 1);
      WinCount(m, addrs, total, i, n) == if n <= lo then 0 else if n <= hi then n - lo else hi - lo
    decreases n
  {
    PrefixMonotone(m, addrs, i, i + 1);
    if n > 0 {
      WinCountInBand(m, addrs, total, i, n - 1);
      assert DrawStart(total, n - 1) == n;
      LotteryBands(m, addrs, n - 1, i);
    }
  }

  /** When the reader answers for exactly the queried, distinct addresses, the
      total stake is the prefix over every session, and is not negative. */
  lemma TotalIsLastPrefix(m: map<Address, Int64>, addrs: seq<Address>)
    requires NonNegative(m) && Distinct(addrs)
    requires forall a :: a in m <==> a in addrs
    ensures 0 <= TotalStake(m) == Prefix(m, addrs, |addrs|)
  {
    SumOverNonNegative(m, m.Keys);
    PrefixIsSumOver(m, addrs, |addrs|);
    assert AddrSet(addrs, |addrs|) == m.Keys;
  }

  /** Stake proportionality of the corrected lottery: when the reader returns a
      non-negative stake for exactly the queried addresses, no two sessions
      share an address and the total fits in an int64, exactly as many of the
      draws `0 .. totalStake - 1` select session `i` as its stake. */
  lemma StakeProportionalSelection(m: map<Address, Int64>, addrs: seq<Address>, i: nat)
    requires NonNegative(m) && Distinct(addrs) && i < |addrs|
    requires forall a :: a in m <==> a in addrs
    requires TotalStake(m) <= MaxInt64
    ensures var total := Wrap64(TotalStake(m));
      total >= 0 && WinCount(m, addrs, total, i, total) == m[addrs[i]]
  {
    TotalIsLastPrefix(m, addrs);
    var total := Wrap64(TotalStake(m));
    assert total == Prefix(m, addrs, |addrs|);
    PrefixMonotone(m, addrs, i, i + 1);
    PrefixMonotone(m, addrs, i + 1, |addrs|);
    if total > 0 {
      WinCountInBand(m, addrs, total, i, total);
    }
  }

  /** As written, with the counter started at the draw itself, the first
      session wins on every draw in `[0, stake]`: one draw more than its stake. */
  lemma AsWrittenFirstSessionWinsExtraDraw(m: map<Address, Int64>, addrs: seq<Address>, draw: int)
    requires |addrs| > 0 && 0 <= draw <= StakeOf(m, addrs[0])
    ensures FirstCrossing(m, addrs, draw, 0) == Some(0)
  {
    assert Crossed(m, addrs, draw, 0);
  }

  /** As written, a session with no stake at all ahead of one with stake 1:
      the total is 1, the only draw is 0, and it selects the stake-0 session,
      so the staked session is never selected. The corrected start selects
      the staked session on that draw. */
  lemma AsWrittenZeroStakeWins(a: Address, b: Address)
    requires a != b
    ensures var m: map<Address, Int64> := map[a := 0, b := 1];
      && TotalStake(m) == 1
      && FirstCrossing(m, [a, b], DrawStartAsWritten(1, 0), 0) == Some(0)
      && FirstCrossing(m, [a, b], DrawStart(1, 0), 0) == Some(1)
  {
    var m: map<Address, Int64> := map[a := 0, b := 1];
    SumOverRemove(m, m.Keys, a);
    assert m.Keys - {a} == {b};
    SumOverRemove(m, {b}, b);
    assert {b} - {b} == {};
    assert Prefix(m, [a, b], 1) == 0;
    assert Crossed(m, [a, b], 0, 0);
    assert !Crossed(m, [a, b], 1, 0);
    assert Prefix(m, [a, b], 2) == 1;
  }

  /** As written, two sessions with one stake unit each: the total is 2, both
      possible draws select the first session and the second never wins. The
      corrected start selects the second session on draw 1. */
  lemma AsWrittenStarvesSecondSession(a: Address, b: Address)
    requires a != b
    ensures var m: map<Address, Int64> := map[a := 1, b := 1];
      && TotalStake(m) == 2
      && (forall draw :: 0 <= draw < 2 ==> FirstCrossing(m, [a, b], DrawStartAsWritten(2, draw), 0) == Some(0))
      && FirstCrossing(m, [a, b], DrawStart(2, 1), 0) == Some(1)
  {
    var m: map<Address, Int64> := map[a := 1, b := 1];
    SumOverRemove(m, m.Keys, a);
    assert m.Keys - {a} == {b};
    SumOverRemove(m, {b}, b);
    assert {b} - {b} == {};
    forall draw | 0 <= draw < 2
      ensures FirstCrossing(m, [a, b], DrawStartAsWritten(2, draw), 0) == Some(0)
    {
      AsWrittenFirstSessionWinsExtraDraw(m, [a, b], draw);
    }
    assert Prefix(m, [a, b], 1) == 1;
    assert Prefix(m, [a, b], 2) == 2;
    assert !Crossed(m, [a, b], 2, 0);
  }
}
