/** Client-side consequences of the selector contracts: each method builds a
    fresh selector, drives it, and states what it must observe. */
module Scenarios {
  import opened Sessions
  import opened Stake
  import opened MinLS
  import opened Lifo

  /** Without a stake reader, unscored sessions come out in the order they were
      added, and an empty pool yields None. */
  method OfflineDrawsInAddOrder(a: Session, b: Session) returns (x: Option<Session>, y: Option<Session>, z: Option<Session>)
    ensures x == Some(a) && y == Some(b) && z == None
  {
    var sel := new MinLSSelector(false, 0.0);
    sel.Add([a, b]);
    assert sel.unknownSessions == [a, b] && sel.knownSessions.elems == [];
    x := sel.Select(ReadError, 0);
    assert sel.unknownSessions == [b] && sel.knownSessions.elems == [];
    y := sel.Select(ReadError, 0);
    assert sel.unknownSessions == [] && sel.knownSessions.elems == [];
    z := sel.Select(ReadError, 0);
  }

  /** Good-enough bound 50, one scored session at 80, two unscored sessions and
      no stake reader: the first unscored session is handed out, not the scored one. */
  method ThresholdPrefersUnscored(known: Session, u1: Session, u2: Session) returns (x: Option<Session>)
    requires known.latencyScore == 80.0
    ensures x == Some(u1)
  {
    var sel := new MinLSSelector(false, 50.0);
    sel.Add([u1, u2]);
    sel.Complete(known);
    assert sel.knownSessions.elems == [known] by {
      assert |sel.knownSessions.elems| == 1;
      assert sel.knownSessions.elems[0] in multiset{known};
    }
    x := sel.Select(ReadError, 0);
  }

  /** A scored session within the bound is handed out before unscored ones. */
  method GoodEnoughScoreWins(known: Session, u: Session, minLS: real) returns (x: Option<Session>)
    requires known.latencyScore <= minLS
    ensures x == Some(known)
  {
    var sel := new MinLSSelector(true, minLS);
    sel.Add([u]);
    sel.Complete(known);
    assert sel.knownSessions.elems == [known] by {
      assert |sel.knownSessions.elems| == 1;
      assert sel.knownSessions.elems[0] in multiset{known};
    }
    x := sel.Select(ReadError, 0);
  }

  /** A failed stake read hands out nothing and keeps every session. */
  method FailedReadKeepsPool(u1: Session, u2: Session) returns (x: Option<Session>, size: nat)
    ensures x == None && size == 2
  {
    var sel := new MinLSSelector(true, 0.0);
    sel.Add([u1, u2]);
    x := sel.Select(ReadError, 0);
    size := sel.Size();
  }

  /** After `Clear` the pool is empty and `Select` returns None, whatever the
      stake reader would have answered. */
  method ClearEmptiesPool(u: Session, k: Session, read: StakeRead, draw: int) returns (x: Option<Session>, size: nat)
    requires DrawFits(read, draw)
    ensures x == None && size == 0
  {
    var sel := new MinLSSelector(true, 0.0);
    sel.Add([u]);
    sel.Complete(k);
    sel.Clear();
    size := sel.Size();
    x := sel.Select(read, draw);
  }

  /** LIFO: after `Add([a, b])` the last of the batch comes out first, and a
      session just completed comes out before the remaining fresh one. */
  method LifoReusesWarmSession(a: Session, b: Session, c: Session) returns (x: Session, y: Session, z: Session)
    ensures x == b && y == c && z == a
  {
    var sel := new LIFOSelector();
    sel.Add([a, b]);
    assert sel.sessions == [a, b];
    x := sel.Select();
    assert sel.sessions == [a];
    sel.Complete(c);
    assert sel.sessions == [a, c];
    y := sel.Select();
    assert sel.sessions == [a];
    z := sel.Select();
  }

  /** LIFO: a batch added later sits in front of an earlier one, so the earlier
      batch is used up first. */
  method LifoEarlierBatchFirst(a: Session, b: Session) returns (x: Session, y: Session)
    ensures x == a && y == b
  {
    var sel := new LIFOSelector();
    sel.Add([a]);
    sel.Add([b]);
    x := sel.Select();
    y := sel.Select();
  }
}
