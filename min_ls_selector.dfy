/** `MinLSSelector`: scored sessions in a min-heap, unscored sessions in a slice.
    `Select` hands out the lowest-scoring session when it is good enough (or
    when nothing unscored is left), and otherwise draws an unscored session. */
module MinLS {
  import opened GoInt
  import opened Sessions
  import opened Heap
  import opened Stake

  /** The outcome of drawing from the unscored sessions: the session handed out
      (None for Go's nil) and what is left. */
  datatype Draw = Draw(picked: Option<Session>, rest: seq<Session>)

  /** `unknown` with entry `i` removed by moving the last entry into its place. */
  function SwapRemove(s: seq<Session>, i: nat): (r: seq<Session>)
    requires i < |s|
    ensures |r| == |s| - 1
    ensures multiset(r) == multiset(s) - multiset{s[i]}
    ensures forall k :: 0 <= k < |r| && k != i ==> r[k] == s[k]
    ensures i < |r| ==> r[i] == s[|s| - 1]
  {
    SwapRemoveCount(s, i);
    s[i := s[|s| - 1]][..|s| - 1]
  }

  lemma SwapRemoveCount(s: seq<Session>, i: nat)
    requires i < |s|
    ensures multiset(s[i := s[|s| - 1]][..|s| - 1]) == multiset(s) - multiset{s[i]}
  {
    var n := |s| - 1;
    var p := s[..n];
    assert s == p + [s[n]];
    if i < n {
      assert s[i := s[n]][..n] == p[i := s[n]];
      assert multiset(p[i := s[n]]) == multiset(p) - multiset{p[i]} + multiset{s[n]};
    } else {
      assert s[i := s[n]][..n] == p;
    }
  }

  /** The recipient address of every session, in order. */
  function Recipients(s: seq<Session>): (addrs: seq<Address>)
    ensures |addrs| == |s|
    ensures forall k :: 0 <= k < |s| ==> addrs[k] == s[k].recipient
  {
    seq(|s|, k requires 0 <= k < |s| => s[k].recipient)
  }

  /** What `selectUnknownSession` does: nothing when no session is unscored;
      first-in-first-out without a stake reader; nothing when the stake read
      fails; otherwise the winner of the stake-weighted lottery, removed by
      swapping it with the last entry, or nothing when no session wins. */
  ghost function UnknownDraw(unknown: seq<Session>, hasStakeReader: bool, read: StakeRead, draw: int): (d: Draw)
    ensures d.picked.None? ==> d.rest == unknown
    ensures d.picked.Some? ==> d.picked.value in unknown && multiset(d.rest) == multiset(unknown) - multiset{d.picked.value}
    ensures |unknown| == 0 ==> d.picked.None?
    ensures |unknown| > 0 && !hasStakeReader ==> d.picked == Some(unknown[0]) && d.rest == unknown[1..]
    ensures hasStakeReader && read.ReadError? ==> d.picked.None?
  {
    if |unknown| == 0 then Draw(None, unknown)
    else if !hasStakeReader then
      assert unknown == [unknown[0]] + unknown[1..];
      Draw(Some(unknown[0]), unknown[1..])
    else match read
      case ReadError => Draw(None, unknown)
      case Stakes(m) =>
        match FirstCrossing(m, Recipients(unknown), DrawStartAsWritten(Wrap64(TotalStake(m)), draw), 0)
        case None => Draw(None, unknown)
        case Some(i) => Draw(Some(unknown[i]), SwapRemove(unknown, i))
  }

  /** `Select` takes the heap minimum when there is one and it is good enough,
      or when no session is unscored. */
  ghost predicate TakesFromHeap(known: seq<Session>, unknown: seq<Session>, minLS: real): (b: bool)
    ensures |known| == 0 ==> !b
    ensures |known| > 0 && |unknown| == 0 ==> b
    ensures |known| > 0 && known[0].latencyScore <= minLS ==> b
    ensures |unknown| > 0 && |known| > 0 && known[0].latencyScore > minLS ==> !b
  {
    |known| > 0 && !(known[0].latencyScore > minLS && |unknown| > 0)
  }

  /** Removing one session from either collection removes exactly that session
      from the pool. */
  lemma PoolShrinks(u: seq<Session>, u': seq<Session>, k: seq<Session>, k': seq<Session>, x: Session)
    requires (multiset(u') == multiset(u) - multiset{x} && x in u && k' == k)
          || (multiset(k') == multiset(k) - multiset{x} && x in k && u' == u)
    ensures x in multiset(u) + multiset(k)
    ensures multiset(u') + multiset(k') == multiset(u) + multiset(k) - multiset{x}
    ensures |u'| + |k'| == |u| + |k| - 1
  {
    assert |multiset(u') + multiset(k')| == |u'| + |k'|;
  }

  class MinLSSelector {
    var unknownSessions: seq<Session>
    var knownSessions: SessHeap
    /** Whether a stake reader is configured (`stakeRdr != nil`). What it
        answers is an argument of `Select`. */
    var hasStakeReader: bool
    var minLS: real

    ghost predicate Valid()
      reads this, knownSessions
    {
      knownSessions.Valid()
    }

    /** Every session held, scored or not, with multiplicity. */
    ghost function Pool(): multiset<Session>
      reads this, knownSessions
    {
      multiset(unknownSessions) + multiset(knownSessions.elems)
    }

    /** `NewMinLSSelector`: no sessions, an empty heap. */
    constructor (hasStakeReader: bool, minLS: real)
      ensures Valid() && fresh(knownSessions)
      ensures unknownSessions == [] && knownSessions.elems == []
      ensures this.hasStakeReader == hasStakeReader && this.minLS == minLS
    {
      unknownSessions := [];
      knownSessions := new SessHeap();
      this.hasStakeReader := hasStakeReader;
      this.minLS := minLS;
    }

    /** The number of sessions held: unscored plus scored. */
    function Size(): (n: nat)
      reads this, knownSessions
      ensures n == |Pool()|
    {
      |unknownSessions| + knownSessions.Len()
    }

    /** Appends the batch to the unscored sessions; the heap is untouched. */
    method Add(sessions: seq<Session>)
      requires Valid()
      modifies this
      ensures Valid()
      ensures unknownSessions == old(unknownSessions) + sessions
      ensures knownSessions == old(knownSessions) && hasStakeReader == old(hasStakeReader) && minLS == old(minLS)
      ensures Pool() == old(Pool()) + multiset(sessions)
      ensures Size() == old(Size()) + |sessions|
    {
      unknownSessions := unknownSessions + sessions;
    }

    /** Pushes a scored session onto the heap; the unscored sessions are untouched. */
    method Complete(sess: Session)
      requires Valid()
      modifies knownSessions
      ensures Valid()
      ensures multiset(knownSessions.elems) == multiset(old(knownSessions.elems)) + multiset{sess}
      ensures Pool() == old(Pool()) + multiset{sess}
      ensures Size() == old(Size()) + 1
    {
      knownSessions.HeapPush(sess);
    }

    /** Hands out one session, or None. `read` is what the stake reader would
        answer and `draw` is `rand.Int63n(totalStake)`. Taking from the heap
        returns a minimum and leaves the unscored sessions alone; otherwise the
        heap is unchanged and the unscored sessions are drawn from. A session
        handed out leaves the pool (no loss, no duplication); None changes
        nothing. */
    method Select(read: StakeRead, draw: int) returns (res: Option<Session>)
      requires Valid() && DrawFits(read, draw)
      modifies this, knownSessions
      ensures Valid()
      ensures knownSessions == old(knownSessions) && hasStakeReader == old(hasStakeReader) && minLS == old(minLS)
      ensures TakesFromHeap(old(knownSessions.elems), old(unknownSessions), minLS) ==>
        && res == Some(old(knownSessions.elems)[0])
        && IsMinimum(res.value, old(knownSessions.elems))
        && unknownSessions == old(unknownSessions)
        && multiset(knownSessions.elems) == multiset(old(knownSessions.elems)) - multiset{res.value}
      ensures !TakesFromHeap(old(knownSessions.elems), old(unknownSessions), minLS) ==>
        && knownSessions.elems == old(knownSessions.elems)
        && res == UnknownDraw(old(unknownSessions), hasStakeReader, read, draw).picked
        && unknownSessions == UnknownDraw(old(unknownSessions), hasStakeReader, read, draw).rest
      ensures res.Some? ==> res.value in old(Pool()) && Pool() == old(Pool()) - multiset{res.value}
      ensures res.Some? ==> Size() == old(Size()) - 1
      ensures res.None? ==> unknownSessions == old(unknownSessions) && knownSessions.elems == old(knownSessions.elems)
    {
      ghost var unknown0, known0 := unknownSessions, knownSessions.elems;
      var top := knownSessions.Peek();
      if top.None? || (top.value.latencyScore > minLS && |unknownSessions| > 0) {
        res := SelectUnknownSession(read, draw);
        ghost var d := UnknownDraw(unknown0, hasStakeReader, read, draw);
        assert res == d.picked && unknownSessions == d.rest;
        if res.Some? {
          PoolShrinks(unknown0, unknownSessions, known0, known0, res.value);
        }
        return;
      }
      var m := knownSessions.HeapPop();
      res := Some(m);
      PoolShrinks(unknown0, unknown0, known0, knownSessions.elems, m);
    }

    /** Drops every session and the stake reader: later unscored draws are
        first-in-first-out. */
    method Clear()
      modifies this
      ensures Valid() && fresh(knownSessions)
      ensures unknownSessions == [] && knownSessions.elems == []
      ensures !hasStakeReader && minLS == old(minLS)
      ensures Size() == 0
    {
      unknownSessions := [];
      knownSessions := new SessHeap();
      hasStakeReader := false;
    }

    /** `selectUnknownSession`: the addresses of the unscored sessions, the
        stake read, the int64 total, the lottery with the counter started at
        the draw itself, and the removal of the winner. */
    method SelectUnknownSession(read: StakeRead, draw: int) returns (res: Option<Session>)
      requires DrawFits(read, draw)
      modifies this
      ensures knownSessions == old(knownSessions) && hasStakeReader == old(hasStakeReader) && minLS == old(minLS)
      ensures Draw(res, unknownSessions) == UnknownDraw(old(unknownSessions), hasStakeReader, read, draw)
    {
      if |unknownSessions| == 0 {
        return None;
      }
      if !hasStakeReader {
        res := Some(unknownSessions[0]);
        unknownSessions := unknownSessions[1..];
        return;
      }
      var unknown := unknownSessions;
      var n := |unknown|;
      var addrs := new Address[n];
      for i := 0 to n
        modifies addrs
        invariant forall k :: 0 <= k < i ==> addrs[k] == unknown[k].recipient
      {
        addrs[i] := unknown[i].recipient;
      }
      assert addrs[..] == Recipients(unknown);
      if read.ReadError? {
        return None;
      }
      var stakes := read.stakes;
      var totalStake := SumStakes(stakes);
      var r: Int64 := 0;
      if totalStake > 0 {
        r := draw;
      }
      var winner := WeightedPick(stakes, addrs[..], r);
      assert winner == FirstCrossing(stakes, Recipients(unknown), DrawStartAsWritten(Wrap64(TotalStake(stakes)), draw), 0);
      if winner.None? {
        return None;
      }
      var i := winner.value;
      var sess := unknown[i];
      var swapped := unknown[n - 1 := unknown[i]][i := unknown[n - 1]];
      assert swapped[..n - 1] == SwapRemove(unknown, i);
      unknownSessions := swapped[..n - 1];
      res := Some(sess);
    }
  }
}
