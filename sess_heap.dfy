/** `sessHeap`: a binary min-heap of sessions keyed by latency score, kept in a
    slice. The Go type only supplies Len/Less/Swap/Push/Pop/Peek; the sift-up and
    sift-down that `container/heap` runs over them are written out here
    (`Up`, `Down`, `HeapPush`, `HeapPop`). */
module Heap {
  import opened Sessions

  function Parent(i: nat): nat
    requires i > 0
  {
    (i - 1) / 2
  }

  /** The first `n` entries are heap-ordered: none scores lower than its parent. */
  ghost predicate HeapOrdered(s: seq<Session>, n: nat)
    requires n <= |s|
  {
    forall i {:trigger Parent(i)} :: 0 < i < n ==> s[Parent(i)].latencyScore <= s[i].latencyScore
  }

  /** `x` is held in `s` and no entry of `s` has a lower score. */
  ghost predicate IsMinimum(x: Session, s: seq<Session>)
  {
    x in s && forall j :: 0 <= j < |s| ==> x.latencyScore <= s[j].latencyScore
  }

  /** In a heap-ordered prefix the root scores no higher than any entry of it. */
  lemma {:induction false} RootIsMinimum(s: seq<Session>, n: nat, j: nat)
    requires n <= |s| && HeapOrdered(s, n) && j < n
    ensures s[0].latencyScore <= s[j].latencyScore
    decreases j
  {
    if j > 0 {
      RootIsMinimum(s, n, Parent(j));
    }
  }

  lemma RootIsMinimumOf(s: seq<Session>)
    requires |s| > 0 && HeapOrdered(s, |s|)
    ensures IsMinimum(s[0], s)
  {
    forall j | 0 <= j < |s|
      ensures s[0].latencyScore <= s[j].latencyScore
    {
      RootIsMinimum(s, |s|, j);
    }
  }

  /** Heap order everywhere except between `j` and its parent, and `j`'s parent
      is no higher than `j`'s children: the loop invariant of sift-up. */
  ghost predicate UpOrdered(s: seq<Session>, j: nat)
    requires j < |s|
  {
    && (forall i {:trigger Parent(i)} :: 0 < i < |s| && i != j ==> s[Parent(i)].latencyScore <= s[i].latencyScore)
    && (j > 0 ==> forall i {:trigger Parent(i)} :: 0 < i < |s| && Parent(i) == j ==> s[Parent(j)].latencyScore <= s[i].latencyScore)
  }

  /** Heap order within the first `n` entries except between `i` and its
      children, and `i`'s parent is no higher than them: the loop invariant of
      sift-down. */
  ghost predicate DownOrdered(s: seq<Session>, i: nat, n: nat)
    requires i < n <= |s|
  {
    && (forall k {:trigger Parent(k)} :: 0 < k < n && Parent(k) != i ==> s[Parent(k)].latencyScore <= s[k].latencyScore)
    && (i > 0 ==> forall k {:trigger Parent(k)} :: 0 < k < n && Parent(k) == i ==> s[Parent(i)].latencyScore <= s[k].latencyScore)
  }

  /** One swap of sift-down keeps its invariant: `j` is the lower-scoring child
      of `i`, and it scores strictly lower than `i`. */
  lemma DownStep(s: seq<Session>, i: nat, j: nat, n: nat)
    requires i < n <= |s| && DownOrdered(s, i, n)
    requires j < n && (j == 2 * i + 1 || j == 2 * i + 2)
    requires s[j].latencyScore < s[i].latencyScore
    requires 2 * i + 1 < n && s[j].latencyScore <= s[2 * i + 1].latencyScore
    requires 2 * i + 2 < n ==> s[j].latencyScore <= s[2 * i + 2].latencyScore
    ensures DownOrdered(s[i := s[j]][j := s[i]], j, n)
  {
    var t := s[i := s[j]][j := s[i]];
    forall k | 0 < k < n && Parent(k) != j
      ensures t[Parent(k)].latencyScore <= t[k].latencyScore
    {
      var p := Parent(k);
      if p == i {
        assert k == 2 * i + 1 || k == 2 * i + 2;
        assert t[p] == s[j];
        if k == j {
          assert t[k] == s[i];
        } else {
          assert t[k] == s[k];
        }
      } else if k == i {
        assert t[k] == s[j] && t[p] == s[p];
        assert s[Parent(i)].latencyScore <= s[j].latencyScore;
      } else {
        assert k != j && p != j;
        assert t[k] == s[k] && t[p] == s[p];
      }
    }
    forall k | 0 < k < n && Parent(k) == j
      ensures t[Parent(j)].latencyScore <= t[k].latencyScore
    {
      assert k != i && k != j;
      assert t[Parent(j)] == s[j] && t[k] == s[k];
    }
  }

  /** Sift-down stops when `i` has no child below `n` or no child scores
      strictly lower than `i`: the whole prefix is then heap-ordered. */
  lemma DownDone(s: seq<Session>, i: nat, n: nat)
    requires i < n <= |s| && DownOrdered(s, i, n)
    requires 2 * i + 1 < n ==> s[i].latencyScore <= s[2 * i + 1].latencyScore
    requires 2 * i + 2 < n ==> s[i].latencyScore <= s[2 * i + 2].latencyScore
    ensures HeapOrdered(s, n)
  {
    forall k | 0 < k < n && Parent(k) == i
      ensures s[Parent(k)].latencyScore <= s[k].latencyScore
    {
      assert k == 2 * i + 1 || k == 2 * i + 2;
    }
  }

  /** One swap of sift-up keeps its invariant: `j` scores strictly lower than
      its parent `i`. */
  lemma UpStep(s: seq<Session>, i: nat, j: nat)
    requires 0 < j < |s| && i == Parent(j) && UpOrdered(s, j)
    requires s[j].latencyScore < s[i].latencyScore
    ensures UpOrdered(s[i := s[j]][j := s[i]], i)
  {
    var t := s[i := s[j]][j := s[i]];
    forall k | 0 < k < |s| && k != i
      ensures t[Parent(k)].latencyScore <= t[k].latencyScore
    {
      if k == j {
      } else if Parent(k) == i {
      } else if Parent(k) == j {
        assert s[Parent(j)].latencyScore <= s[k].latencyScore;
      }
    }
    if i > 0 {
      forall k | 0 < k < |s| && Parent(k) == i
        ensures t[Parent(i)].latencyScore <= t[k].latencyScore
      {
        assert s[Parent(i)].latencyScore <= s[i].latencyScore;
      }
    }
  }

  /** Sift-up stops at the root, or when the entry does not score strictly
      lower than its parent: the whole sequence is then heap-ordered. */
  lemma UpDone(s: seq<Session>, j: nat)
    requires j < |s| && UpOrdered(s, j)
    requires j > 0 ==> s[Parent(j)].latencyScore <= s[j].latencyScore
    ensures HeapOrdered(s, |s|)
  {
  }

  /** Moving the last entry of a heap to the root (and the root to the end)
      sets up sift-down over all but the last entry. */
  lemma SwapRootToEnd(s: seq<Session>)
    requires |s| > 1 && HeapOrdered(s, |s|)
    ensures DownOrdered(s[0 := s[|s| - 1]][|s| - 1 := s[0]], 0, |s| - 1)
  {
    var n := |s| - 1;
    var t := s[0 := s[n]][n := s[0]];
    forall k | 0 < k < n && Parent(k) != 0
      ensures t[Parent(k)].latencyScore <= t[k].latencyScore
    {
      assert t[k] == s[k] && t[Parent(k)] == s[Parent(k)];
    }
  }

  lemma PrefixOrdered(s: seq<Session>, n: nat)
    requires n <= |s| && HeapOrdered(s, n)
    ensures HeapOrdered(s[..n], n)
  {
    forall k | 0 < k < n
      ensures s[..n][Parent(k)].latencyScore <= s[..n][k].latencyScore
    {
      assert s[..n][k] == s[k] && s[..n][Parent(k)] == s[Parent(k)];
    }
  }

  /** What `heap.Pop` leaves: the sifted sequence ends with the old root and is
      heap-ordered before it, so dropping that last entry leaves a heap that
      holds everything but the old root, which was a minimum. */
  lemma PopOutcome(o: seq<Session>, sifted: seq<Session>, e: seq<Session>, x: Session)
    requires |o| > 0 && HeapOrdered(o, |o|)
    requires sifted == e + [x] && |sifted| == |o| && HeapOrdered(sifted, |e|)
    requires x == o[0] && multiset(sifted) == multiset(o)
    ensures HeapOrdered(e, |e|) && IsMinimum(x, o)
    ensures multiset(e) == multiset(o) - multiset{x}
  {
    assert e == sifted[..|e|];
    PrefixOrdered(sifted, |e|);
    RootIsMinimumOf(o);
  }

  class SessHeap {
    var elems: seq<Session>

    /** The heap order that `container/heap` keeps as long as the slice is only
        changed through `HeapPush` and `HeapPop`. */
    ghost predicate Valid()
      reads this
    {
      HeapOrdered(elems, |elems|)
    }

    constructor ()
      ensures elems == [] && Valid()
    {
      elems := [];
    }

    /** The number of sessions held, duplicates included. */
    function Len(): (n: nat)
      reads this
      ensures n == |elems|
    {
      |elems|
    }

    /** Strictly lower score sorts first; equal scores are unordered. Go's
        `Less` has a value receiver: it reads the slice it is given. */
    static function Less(h: seq<Session>, i: nat, j: nat): (b: bool)
      requires i < |h| && j < |h|
      ensures b ==> h[i].latencyScore != h[j].latencyScore
      ensures !b ==> h[j].latencyScore <= h[i].latencyScore
    {
      h[i].latencyScore < h[j].latencyScore
    }

    /** `Less` is the strict weak order `sort.Interface` asks for: irreflexive
        and asymmetric, transitive, and two entries are incomparable exactly
        when their scores tie. */
    static lemma LessIsStrictWeakOrder(h: seq<Session>, i: nat, j: nat, k: nat)
      requires i < |h| && j < |h| && k < |h|
      ensures !Less(h, i, i)
      ensures Less(h, i, j) ==> !Less(h, j, i)
      ensures Less(h, i, j) && Less(h, j, k) ==> Less(h, i, k)
      ensures !Less(h, i, j) && !Less(h, j, i) <==> h[i].latencyScore == h[j].latencyScore
    {
    }

    method Swap(i: nat, j: nat)
      requires i < |elems| && j < |elems|
      modifies this
      ensures elems == old(elems)[i := old(elems)[j]][j := old(elems)[i]]
      ensures multiset(elems) == multiset(old(elems))
    {
      elems := elems[i := elems[j]][j := elems[i]];
    }

    /** `sessHeap.Push`: appends only; `HeapPush` restores the order. */
    method Push(x: Session)
      modifies this
      ensures elems == old(elems) + [x]
    {
      elems := elems + [x];
    }

    /** `sessHeap.Pop`: removes and returns the last entry; `HeapPop` has moved
        the minimum there first. */
    method Pop() returns (x: Session)
      requires |elems| > 0
      modifies this
      ensures old(elems) == elems + [x]
      ensures multiset(elems) == multiset(old(elems)) - multiset{x}
    {
      var n := |elems|;
      x := elems[n - 1];
      elems := elems[..n - 1];
      assert old(elems) == elems + [x];
    }

    /** nil on an empty heap, otherwise the entry at index 0, which is a
        minimum whenever the heap order holds. */
    method Peek() returns (r: Option<Session>)
      ensures r.None? <==> |elems| == 0
      ensures r.Some? ==> r.value == elems[0]
      ensures r.Some? && Valid() ==> IsMinimum(r.value, elems)
    {
      if Len() == 0 {
        return None;
      }
      r := Some(elems[0]);
      if Valid() {
        forall j | 0 <= j < |elems|
          ensures r.value.latencyScore <= elems[j].latencyScore
        {
          RootIsMinimum(elems, |elems|, j);
        }
      }
    }

    /** Sift-up from `j0` (container/heap's `up`). */
    method Up(j0: nat)
      requires j0 < |elems| && UpOrdered(elems, j0)
      modifies this
      ensures Valid()
      ensures multiset(elems) == multiset(old(elems))
    {
      var j: nat := j0;
      while true
        invariant j < |elems| && UpOrdered(elems, j)
        invariant multiset(elems) == multiset(old(elems))
        decreases j
      {
        // Go's `(j - 1) / 2` truncates toward zero, so it is 0 when j is 0.
        var i: nat := if j == 0 then 0 else (j - 1) / 2;
        if i == j || !Less(elems, j, i) {
          UpDone(elems, j);
          break;
        }
        UpStep(elems, i, j);
        Swap(i, j);
        j := i;
      }
    }

    /** Sift-down from `i0` within the first `n` entries (container/heap's
        `down`); the entries from `n` on are not touched. */
    method Down(i0: nat, n: nat)
      requires i0 < n <= |elems| && DownOrdered(elems, i0, n)
      modifies this
      ensures |elems| == |old(elems)| && HeapOrdered(elems, n)
      ensures elems[n..] == old(elems)[n..]
      ensures multiset(elems) == multiset(old(elems))
    {
      var i := i0;
      while true
        invariant i < n <= |elems| == |old(elems)| && DownOrdered(elems, i, n)
        invariant elems[n..] == old(elems)[n..]
        invariant multiset(elems) == multiset(old(elems))
        decreases n - i
      {
        var j1 := 2 * i + 1;
        if j1 >= n {
          DownDone(elems, i, n);
          break;
        }
        var j := j1;
        var j2 := j1 + 1;
        if j2 < n && Less(elems, j2, j1) {
          j := j2;
        }
        if !Less(elems, j, i) {
          DownDone(elems, i, n);
          break;
        }
        DownStep(elems, i, j, n);
        Swap(i, j);
        i := j;
      }
    }

    /** `heap.Push(h, x)`: append, then sift the new entry up. */
    method HeapPush(x: Session)
      requires Valid()
      modifies this
      ensures Valid()
      ensures multiset(elems) == multiset(old(elems)) + multiset{x}
    {
      Push(x);
      Up(|elems| - 1);
    }

    /** `heap.Pop(h)`: move the root to the end, sift the new root down over
        the rest, and remove the last entry. The result is the old root, a
        minimum of the old heap. */
    method HeapPop() returns (x: Session)
      requires Valid() && |elems| > 0
      modifies this
      ensures Valid()
      ensures x == old(elems)[0] && IsMinimum(x, old(elems))
      ensures multiset(elems) == multiset(old(elems)) - multiset{x}
    {
      var n := |elems| - 1;
      if n > 0 {
        SwapRootToEnd(elems);
      }
      Swap(0, n);
      ghost var swapped := elems;
      if n > 0 {
        Down(0, n);
        assert elems[n] == swapped[n..][0];
      }
      ghost var sifted := elems;
      x := Pop();
      PopOutcome(old(elems), sifted, elems, x);
    }
  }
}
