/** `LIFOSelector`: one slice of sessions. New batches go to the front, completed
    sessions to the back, and `Select` takes from the back, so a session that
    has just finished a round is reused before any fresh one. */
module Lifo {
  import opened Sessions

  class LIFOSelector {
    var sessions: seq<Session>

    constructor ()
      ensures sessions == []
    {
      sessions := [];
    }

    /** Prepends the batch, keeping its order. */
    method Add(batch: seq<Session>)
      modifies this
      ensures sessions == batch + old(sessions)
    {
      sessions := batch + sessions;
    }

    /** Appends the session at the back. */
    method Complete(sess: Session)
      modifies this
      ensures sessions == old(sessions) + [sess]
    {
      sessions := sessions + [sess];
    }

    /** Removes and returns the last session. The source indexes the slice
        without a check (a panic on an empty one), so callers must check
        `Size` first. */
    method Select() returns (sess: Session)
      requires |sessions| > 0
      modifies this
      ensures sess == old(sessions)[|old(sessions)| - 1]
      ensures sessions == old(sessions)[..|old(sessions)| - 1]
    {
      var last := |sessions| - 1;
      sess := sessions[last];
      sessions := sessions[..last];
      assert old(sessions) == sessions + [sess];
    }

    /** The number of sessions held, duplicates included. */
    function Size(): (n: nat)
      reads this
      ensures n == |sessions|
    {
      |sessions|
    }

    method Clear()
      modifies this
      ensures sessions == [] && Size() == 0
    {
      sessions := [];
    }
  }
}
