// The race context that backends deliver into, and the pool that launches
// them (pool.go). Every Context operation runs under the context's mutex,
// so each is modelled as one atomic step on the context's state.
module WorkPool {
  import opened Bytes
  import opened Pow

  /** The buffer size of the results channel. */
  const ResultCapacity: nat := 64

  class Context {
    /** Values buffered in the results channel, oldest first. */
    var results: seq<u64>
    /** Whether the stops channel has been closed (the stop signal). */
    var stopped: bool
    /** The `closed` flag; set together with closing both channels. */
    var closed: bool

    ghost predicate Valid()
      reads this
    {
      |results| <= ResultCapacity &&
      stopped == closed &&
      (closed ==> results == [])
    }

    /** `NewContext`: an empty, open context. */
    constructor ()
      ensures Valid()
      ensures results == [] && !stopped && !closed
    {
      results := [];
      stopped := false;
      closed := false;
    }

    /**
     * `workerStop`: what a backend observes when it polls the stop channel;
     * the signal is raised exactly when the context is closed.
     */
    function WorkerStop(): (raised: bool)
      reads this
      ensures Valid() ==> (raised <==> closed)
    {
      stopped
    }

    /**
     * `workerResult(i)`: an open context queues `i` at the back; a closed one
     * drops it. A send on a full channel would block while holding the lock,
     * so the caller must leave room.
     */
    method WorkerResult(i: u64)
      requires Valid()
      requires closed || |results| < ResultCapacity
      modifies this
      ensures Valid()
      ensures closed == old(closed) && stopped == old(stopped)
      ensures results == if old(closed) then old(results) else old(results) + [i]
    {
      if !closed {
        results := results + [i];
      }
    }

    /**
     * `Cancel`: raises the stop signal, closes and drains the results channel
     * and marks the context closed. Closing a channel twice panics, so it may
     * run only once.
     */
    method Cancel()
      requires Valid() && !closed
      modifies this
      ensures Valid()
      ensures closed && stopped && results == []
    {
      stopped := true;
      Clear();
      closed := true;
    }

    /** `clear`: receives from the results channel until it is empty. */
    method Clear()
      modifies this
      ensures results == []
      ensures closed == old(closed) && stopped == old(stopped)
    {
      while |results| > 0
        invariant closed == old(closed) && stopped == old(stopped)
        decreases |results|
      {
        results := results[1..];
      }
    }

    /**
     * `Result`: takes the oldest delivered value (the receive blocks until
     * there is one), cancels the context and returns the value as big-endian
     * bytes. Afterwards every WorkerResult is a no-op, so there is one winner.
     */
    method Result() returns (result: Work)
      requires Valid() && !closed && |results| > 0
      modifies this
      ensures Valid()
      ensures closed && stopped && results == []
      ensures result == BeBytes(old(results)[0])
    {
      var r := results[0];
      results := results[1..];
      Cancel();
      result := BeBytes(r);
    }
  }

  /** A configured backend: the CPU worker with its thread count, or an accelerator. */
  datatype Worker = CpuWorker(thread: u64) | Accelerator

  /**
   * The non-nil entries of a worker list, in order: each worker occurs in the
   * result exactly as often as it occurs wrapped in the list.
   */
  function NonNil(ws: seq<Option<Worker>>): (r: seq<Worker>)
    ensures |r| <= |ws|
    ensures forall w :: w in r <==> Some(w) in ws
    ensures forall w {:trigger multiset(r)[w]} :: multiset(r)[w] == multiset(ws)[Some(w)]
  {
    if ws == [] then []
    else
      var last := ws[|ws| - 1];
      assert ws == ws[..|ws| - 1] + [last];
      assert multiset(ws) == multiset(ws[..|ws| - 1]) + multiset{last};
      NonNil(ws[..|ws| - 1]) + (if last.Some? then [last.value] else [])
  }

  /** Filtering a concatenation filters each part: the order of the list is kept. */
  lemma {:induction false} NonNilAppend(a: seq<Option<Worker>>, b: seq<Option<Worker>>)
    ensures NonNil(a + b) == NonNil(a) + NonNil(b)
  {
    if b == [] {
      assert a + b == a;
    } else {
      var ab, c, last := a + b, b[..|b| - 1], b[|b| - 1];
      var tail := if last.Some? then [last.value] else [];
      NonNilAppend(a, c);
      assert ab[..|ab| - 1] == a + c && ab[|ab| - 1] == last;
      assert NonNil(ab) == NonNil(a + c) + tail;
      assert NonNil(b) == NonNil(c) + tail;
    }
  }

  /** `Pool`: its worker list, which may be a nil slice (`None`). */
  datatype Pool = Pool(workers: Option<seq<Option<Worker>>>)
  {
    /** The entries ranged over; a nil slice has none. */
    function Members(): seq<Option<Worker>>
    {
      if workers.Some? then workers.value else []
    }

    /**
     * `Pool.GenerateWork`: creates a context and launches every non-nil
     * worker against it. The launched workers run concurrently; `winner` is
     * the value the first of them handed to workerResult, which is what the
     * blocking Result then reads. At least one worker must be launched, or
     * nothing is ever delivered and Result blocks forever.
     */
    method GenerateWork(root: seq<byte>, difficulty: u64, winner: u64)
      returns (launched: seq<Worker>, w: Work, err: Option<PowError>)
      requires |NonNil(Members())| > 0
      ensures launched == NonNil(Members())
      ensures forall x :: x in launched <==> Some(x) in Members()
      ensures forall x :: multiset(launched)[x] == multiset(Members())[Some(x)]
      ensures w == BeBytes(winner) && err == None
    {
      var ctx := new Context();
      var ws := Members();
      launched := [];
      var i := 0;
      while i < |ws|
        invariant 0 <= i <= |ws|
        invariant launched == NonNil(ws[..i])
      {
        assert ws[..i + 1][..i] == ws[..i];
        if ws[i].Some? {
          launched := launched + [ws[i].value];
        }
        i := i + 1;
      }
      assert ws[..|ws|] == ws;
      ctx.WorkerResult(winner);
      w := ctx.Result();
      err := None;
    }
  }

  /** The zero Work returned on the error path. */
  const ZeroWork: Work := [0, 0, 0, 0, 0, 0, 0, 0]

  /**
   * The package-level `GenerateWork`: fails with ErrNoDefaultPoolAvailable
   * when there is no default pool or its worker list is nil, and otherwise
   * runs that pool.
   */
  method GenerateWork(defaultPool: Option<Pool>, root: seq<byte>, difficulty: u64, winner: u64)
    returns (w: Work, err: Option<PowError>)
    requires defaultPool.Some? && defaultPool.value.workers.Some? ==>
               |NonNil(defaultPool.value.workers.value)| > 0
    ensures defaultPool.None? || defaultPool.value.workers.None? ==>
              w == ZeroWork && err == Some(ErrNoDefaultPoolAvailable)
    ensures defaultPool.Some? && defaultPool.value.workers.Some? ==>
              w == BeBytes(winner) && err == None
  {
    if defaultPool.None? || defaultPool.value.workers.None? {
      return ZeroWork, Some(ErrNoDefaultPoolAvailable);
    }
    var launched;
    launched, w, err := defaultPool.value.GenerateWork(root, difficulty, winner);
  }
}
