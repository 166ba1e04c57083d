// The CPU backend (cpu.go): partitioned start points for its threads and the
// per-thread brute-force search loop.
module Cpu {
  import opened Bytes
  import opened Pow
  import opened WorkPool

  /** Go's math.MaxUint32, 2^32 - 1. */
  const MaxUint32: u64 := 0xffff_ffff

  /** The hash input: 8 candidate bytes followed by the root. */
  const NonceSize: nat := 40
  const RootSize: nat := 32

  /** `NewWorkerCPUThread(t)`: a CPU worker running `t` threads; never an error. */
  function NewWorkerCPUThread(threads: u64): (r: (Worker, Option<PowError>))
    ensures r.0.CpuWorker? && r.0.thread == threads
    ensures r.1.None?
  {
    (CpuWorker(threads), None)
  }

  // ---------------------------------------------------------------------
  // Partitioning the nonce space
  // ---------------------------------------------------------------------

  /**
   * Where thread `i` of `threads` starts: MaxUint32 + (MaxUint32 / threads) * i
   * in uint64 arithmetic. For a thread index below the thread count nothing
   * wraps, and the start lies in [2^32 - 1, 2^33 - 2].
   */
  function PartitionStart(threads: u64, i: u64): (start: u64)
    requires threads > 0
    ensures i < threads ==> start == MaxUint32 + (MaxUint32 / threads) * i
    ensures i < threads ==> MaxUint32 <= start <= 2 * MaxUint32
  {
    OffsetFits(threads, i);
    Add64(MaxUint32, Mul64(Div64(MaxUint32, threads), i))
  }

  /**
   * Below the thread count, the offset (MaxUint32 / threads) * i is at most
   * MaxUint32, so neither the product nor the sum wraps.
   */
  lemma OffsetFits(threads: u64, i: u64)
    requires threads > 0
    ensures i < threads ==> (MaxUint32 / threads) * i <= MaxUint32
    ensures i < threads ==>
              Add64(MaxUint32, Mul64(Div64(MaxUint32, threads), i)) == MaxUint32 + (MaxUint32 / threads) * i
  {
    if i < threads {
      var q := MaxUint32 / threads;
      QuotientTimesDivisor(MaxUint32, threads);
      MulLeftMono(q, i, threads);
      var p := q * i;
      assert Mul64(q, i) == p;
      assert Add64(MaxUint32, p) == MaxUint32 + p;
    }
  }

  lemma QuotientTimesDivisor(a: nat, b: nat)
    requires b > 0
    ensures (a / b) * b <= a
  {
  }

  /**
   * With at most 2^32 - 1 threads the window of each thread (its start up to
   * the next thread's start) holds at least one candidate, so starts strictly
   * increase with the index.
   */
  lemma PartitionIncreasing(threads: u64, i: u64, j: u64)
    requires 0 < threads <= MaxUint32 && i < j < threads
    ensures MaxUint32 / threads >= 1
    ensures PartitionStart(threads, i) + MaxUint32 / threads <= PartitionStart(threads, j)
  {
    var q := MaxUint32 / threads;
    QuotientIsLargest(MaxUint32, threads, 1);
    PartitionNextStart(threads, i);
    MulLeftMono(q, i + 1, j);
  }

  /**
   * A thread's window is exactly MaxUint32 / threads candidates long: its
   * candidate number MaxUint32 / threads is the next thread's start.
   */
  lemma PartitionNextStart(threads: u64, i: u64)
    requires 0 < threads && i + 1 < threads
    ensures PartitionStart(threads, i) + MaxUint32 / threads == PartitionStart(threads, i + 1)
  {
    var q := MaxUint32 / threads;
    assert q * (i + 1) == q * i + q;
  }

  /**
   * The first MaxUint32 / threads candidates of two different threads never
   * coincide.
   */
  lemma PartitionWindowsDisjoint(threads: u64, i: u64, j: u64, k1: nat, k2: nat)
    requires 0 < threads <= MaxUint32 && i < threads && j < threads && i != j
    requires k1 < MaxUint32 / threads && k2 < MaxUint32 / threads
    ensures PartitionStart(threads, i) + k1 != PartitionStart(threads, j) + k2
  {
    if i < j {
      PartitionIncreasing(threads, i, j);
    } else {
      PartitionIncreasing(threads, j, i);
    }
  }

  /** With more than 2^32 - 1 threads the quotient is 0 and every thread starts at the same point. */
  lemma PartitionCollapse(threads: u64, i: u64)
    requires threads > MaxUint32
    ensures PartitionStart(threads, i) == MaxUint32
  {
    var q := MaxUint32 / threads;
    assert q * threads <= MaxUint32;
    if q >= 1 {
      MulLeftMono(threads, 1, q);
      assert false;
    }
  }

  /**
   * `cpuWorker.GenerateWork`: launches one search per thread index in
   * [0, thread), each from its partition start, and returns nil without
   * waiting for them. The launched searches are reported by their starts.
   */
  method GenerateWork(worker: Worker, root: seq<byte>, difficulty: u64)
    returns (starts: seq<u64>, err: Option<PowError>)
    requires worker.CpuWorker?
    ensures err.None?
    ensures |starts| == worker.thread
    ensures forall i :: 0 <= i < |starts| ==> starts[i] == PartitionStart(worker.thread, i)
    ensures forall i :: 0 <= i < |starts| ==> MaxUint32 <= starts[i] <= 2 * MaxUint32
    ensures worker.thread <= MaxUint32 ==>
              forall i, j :: 0 <= i < j < |starts| ==> starts[i] < starts[j]
  {
    var threads := worker.thread;
    starts := [];
    var i: u64 := 0;
    while i < threads
      invariant i <= threads
      invariant |starts| == i
      invariant forall k :: 0 <= k < i ==> starts[k] == PartitionStart(threads, k)
    {
      starts := starts + [PartitionStart(threads, i)];
      i := i + 1;
    }
    if threads <= MaxUint32 {
      forall a, b | 0 <= a < b < |starts|
        ensures starts[a] < starts[b]
      {
        PartitionIncreasing(threads, a, b);
      }
    }
    err := None;
  }

  // ---------------------------------------------------------------------
  // The search loop
  // ---------------------------------------------------------------------

  /** The 40-byte hash input for `candidate`: its little-endian bytes, then the root copied into 32 bytes. */
  function NonceBuffer(candidate: u64, root: seq<byte>): (r: seq<byte>)
    ensures |r| == NonceSize
  {
    LeBytes(candidate) + Copy(Zeros(RootSize), root)
  }

  /** Whether the loop accepts `candidate`: its hash, read little-endian, reaches the threshold. */
  predicate Meets(hash: HashFn, root: seq<byte>, difficulty: u64, candidate: u64)
  {
    LeUint64(hash(NonceBuffer(candidate, root))) >= difficulty
  }

  /** The k-th candidate tried from `start`: start + k, wrapping at 2^64. */
  function Candidate(start: u64, k: nat): u64
  {
    Wrap(start + k)
  }

  /** None of the first `count` candidates from `start` is accepted. */
  predicate NoneMeets(hash: HashFn, root: seq<byte>, difficulty: u64, start: u64, count: nat)
  {
    forall k :: 0 <= k < count ==> !Meets(hash, root, difficulty, Candidate(start, k))
  }

  /**
   * The byte orders fit together: for a 32-byte root, the loop accepts `r`
   * exactly when the big-endian Work that Result makes of `r` passes IsValid.
   */
  lemma AcceptedIffValid(hash: HashFn, root: seq<byte>, difficulty: u64, r: u64)
    requires |root| == RootSize
    ensures Meets(hash, root, difficulty, r) <==> ValidWork(Some(hash), root, difficulty, BeBytes(r))
  {
    assert Copy(Zeros(RootSize), root) == root;
    ReverseBeBytes(r);
    assert BeBytes(r)[..8] == BeBytes(r);
    assert Reversed8(BeBytes(r)) == LeBytes(r);
  }

  lemma CandidateNext(start: u64, k: nat)
    ensures Candidate(start, k + 1) == Add64(Candidate(start, k), 1)
  {
  }

  /**
   * One search thread of `cpuWorker.generateWork`: the candidate, the 40-byte
   * hash input and the hasher's state (the bytes written since its last reset).
   */
  class CpuSearch {
    const hash: HashFn
    const root: seq<byte>
    const difficulty: u64
    const nonce: array<byte>
    /** The current candidate (`result` in the loop). */
    var result: u64
    /** Bytes written to the hasher since it was created or reset. */
    var state: seq<byte>
    /** Whether the loop has returned. */
    var done: bool

    ghost predicate Valid()
      reads this, nonce
    {
      nonce.Length == NonceSize &&
      nonce[8..] == Copy(Zeros(RootSize), root) &&
      (!done ==> state == [])
    }

    /**
     * The set-up before the loop: a fresh hasher, a zeroed 40-byte buffer with
     * the root copied in from byte 8, and `start` as the first candidate.
     */
    constructor (hash: HashFn, root: seq<byte>, difficulty: u64, start: u64)
      ensures Valid() && fresh(nonce)
      ensures nonce[..8] == Zeros(8)
      ensures this.hash == hash && this.root == root && this.difficulty == difficulty
      ensures result == start && !done
    {
      var buf := new byte[NonceSize](_ => 0);
      var n := if |root| < RootSize then |root| else RootSize;
      forall i | 0 <= i < n {
        buf[8 + i] := root[i];
      }
      assert buf[8..] == Copy(Zeros(RootSize), root) by {
        forall i | 0 <= i < RootSize
          ensures buf[8..][i] == Copy(Zeros(RootSize), root)[i]
        {
          assert buf[8..][i] == buf[8 + i];
        }
      }
      this.hash := hash;
      this.root := root;
      this.difficulty := difficulty;
      nonce := buf;
      result := start;
      state := [];
      done := false;
    }

    /**
     * One turn of the loop. A raised stop signal ends the loop without a
     * delivery. Otherwise the candidate is written little-endian into the
     * buffer and hashed; an accepted candidate is delivered and ends the
     * loop, a rejected one resets the hasher and moves to the next candidate.
     */
    method Step(ctx: Context)
      requires Valid() && !done
      requires ctx.Valid() && (ctx.closed || |ctx.results| < ResultCapacity)
      modifies this, nonce, ctx
      ensures Valid()
      ensures ctx.Valid() && ctx.closed == old(ctx.closed) && ctx.stopped == old(ctx.stopped)
      ensures old(ctx.stopped) ==>
                done && result == old(result) && ctx.results == old(ctx.results)
      ensures !old(ctx.stopped) && Meets(hash, root, difficulty, old(result)) ==>
                done && result == old(result) && ctx.results == old(ctx.results) + [old(result)]
      ensures !old(ctx.stopped) && !Meets(hash, root, difficulty, old(result)) ==>
                !done && result == Add64(old(result), 1) && ctx.results == old(ctx.results)
    {
      if ctx.WorkerStop() {
        done := true;
        return;
      }
      PutUint64Le(nonce, result);
      assert nonce[..] == nonce[..8] + nonce[8..];
      assert nonce[..] == NonceBuffer(result, root);
      assert state == [];
      state := state + nonce[..];
      assert state == NonceBuffer(result, root);
      var sum := hash(state);
      if LeUint64(sum) >= difficulty {
        ctx.WorkerResult(result);
        done := true;
        return;
      }
      state := [];
      result := Add64(result, 1);
    }

    /**
     * The loop, run for at most `fuel` turns. Candidates are tried in order
     * from the starting one; at most one is delivered, and it is the first
     * accepted one. With the stop signal already raised the loop ends on its
     * first turn without delivering.
     */
    method Run(ctx: Context, fuel: nat) returns (steps: nat)
      requires Valid() && !done
      requires ctx.Valid() && (ctx.closed || |ctx.results| < ResultCapacity)
      modifies this, nonce, ctx
      ensures Valid()
      ensures ctx.Valid() && ctx.closed == old(ctx.closed) && ctx.stopped == old(ctx.stopped)
      ensures steps <= fuel
      ensures old(ctx.stopped) ==>
                ctx.results == old(ctx.results) && steps == (if fuel == 0 then 0 else 1) &&
                (fuel > 0 ==> done)
      ensures !old(ctx.stopped) && !done ==>
                steps == fuel && result == Candidate(old(result), steps) &&
                ctx.results == old(ctx.results) &&
                NoneMeets(hash, root, difficulty, old(result), steps)
      ensures !old(ctx.stopped) && done ==>
                0 < steps && result == Candidate(old(result), steps - 1) &&
                Meets(hash, root, difficulty, result) &&
                ctx.results == old(ctx.results) + [result] &&
                NoneMeets(hash, root, difficulty, old(result), steps - 1)
    {
      ghost var start := result;
      steps := 0;
      while !done && steps < fuel
        invariant Valid()
        invariant ctx.Valid() && ctx.closed == old(ctx.closed) && ctx.stopped == old(ctx.stopped)
        invariant steps <= fuel
        invariant old(ctx.stopped) ==>
                    ctx.results == old(ctx.results) && steps <= 1 && (done <==> steps == 1)
        invariant !old(ctx.stopped) && !done ==>
                    result == Candidate(start, steps) && ctx.results == old(ctx.results) &&
                    NoneMeets(hash, root, difficulty, start, steps)
        invariant !old(ctx.stopped) && done ==>
                    0 < steps && result == Candidate(start, steps - 1) &&
                    Meets(hash, root, difficulty, result) &&
                    ctx.results == old(ctx.results) + [result] &&
                    NoneMeets(hash, root, difficulty, start, steps - 1)
        decreases fuel - steps
      {
        CandidateNext(start, steps);
        Step(ctx);
        steps := steps + 1;
      }
    }
  }

  /**
   * A single search thread racing alone on a fresh context, then reading the
   * result as a caller does. Whatever it returns passes IsValid for a 32-byte
   * root, and it is the first accepted candidate from `start`; no result
   * means none of the first `fuel` candidates was accepted.
   */
  method SearchAlone(hash: HashFn, root: seq<byte>, difficulty: u64, start: u64, fuel: nat)
    returns (w: Option<Work>, tried: nat)
    ensures tried <= fuel
    ensures w.None? ==> NoneMeets(hash, root, difficulty, start, fuel)
    ensures w.Some? ==>
              0 < tried && w.value == BeBytes(Candidate(start, tried - 1)) &&
              Meets(hash, root, difficulty, Candidate(start, tried - 1)) &&
              NoneMeets(hash, root, difficulty, start, tried - 1)
    ensures w.Some? && |root| == RootSize ==> ValidWork(Some(hash), root, difficulty, w.value)
  {
    var ctx := new Context();
    var search := new CpuSearch(hash, root, difficulty, start);
    tried := search.Run(ctx, fuel);
    if |ctx.results| > 0 {
      var r := ctx.results[0];
      var work := ctx.Result();
      w := Some(work);
      if |root| == RootSize {
        AcceptedIffValid(hash, root, difficulty, r);
      }
    } else {
      w := None;
    }
  }
}
