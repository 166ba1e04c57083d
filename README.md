# nanopow proof-of-work engine, modelled in Dafny

nanopow searches for an 8-byte nonce ("work") whose 8-byte BLAKE2b hash is at
or above a 64-bit difficulty threshold. The hash is taken over the nonce
followed by a 32-byte root. Several backends race for the nonce. The first
value delivered to a shared race context wins, and the context then stops the
rest.

This project models the three parts of that engine:

- `pow.dfy` (module `Pow`): the difficulty formula, with uint64 wrap-around
  written out, and its three presets. It also has `NewWork`, the in-place
  8-byte `reverse`, and the two validity checks `IsValid` and `isValid`, the latter as `CheckNonce`.
- `pool.dfy` (module `WorkPool`): the race `Context` as a class. Its buffered
  results channel, its stop signal and its `closed` flag are fields.
  `workerResult`, `Cancel`, `clear` and `Result` are methods on it, each one
  atomic as under the context's mutex. The module also has the `Pool`, which
  launches every non-nil worker, and the package-level `GenerateWork`.
- `cpu.dfy` (module `Cpu`): the CPU backend. This is the thread start-point
  arithmetic and the per-thread search. The search is a class over the 40-byte
  hash input and the hasher state. `Step` models one turn of the endless loop,
  and `Run` models a loop of at most `fuel` turns.
- `bytes.dfy` (module `Bytes`): Go's fixed-width integers and `copy`, plus the
  `encoding/binary` little- and big-endian uint64 codecs that the engine relies
  on.

BLAKE2b lies outside the model. It is the parameter `hash: HashFn`, a function
from the bytes written to the hasher to an 8-byte digest. The outcome of
`blake2b.New(8, nil)` is an `Option<HashFn>`, so that the "construction failed
means invalid" branch of `isValid` is modelled. The concurrent deliveries that
reach a pool's context are the parameter `winner`.

The main result chains together as follows:

- `CpuSearch.Step` and `CpuSearch.Run` deliver only a candidate whose hash over
  its little-endian bytes followed by the root meets the threshold (`Meets`).
- `Context.Result` returns the oldest delivery as big-endian bytes and closes
  the context. After that, every `WorkerResult` is a no-op.
- `AcceptedIffValid` proves that, for a 32-byte root, the loop accepts `r`
  exactly when `IsValid` accepts the big-endian Work made from `r`. The proof
  rests on `ReverseBeBytes`: reversing the big-endian bytes gives the
  little-endian ones.
- `SearchAlone` puts these together as in `cpu_test.go`. Whatever it reads
  back passes `IsValid`.

Facts about the code's arithmetic that the model keeps exactly:

- Thread `i` of `T` starts at `MaxUint32 + (MaxUint32 / T) * i` (cpu.go:24),
  with `MaxUint32 = 2^32 - 1`, so thread 0 starts at `2^32 - 1`
  (`PartitionStart`).
- Threads stay apart only for their first `MaxUint32 / T` candidates. Thread
  `i`'s candidate number `MaxUint32 / T` is thread `i + 1`'s start
  (`PartitionNextStart`). Within those windows no two threads test the same
  nonce, provided `T <= 2^32 - 1` (`PartitionWindowsDisjoint`). With more
  threads than that, every thread starts at the same point
  (`PartitionCollapse`).
- For negative multipliers the product `baseDifficulty * |m|` wraps once
  `|m| > 2^26`. The threshold for `-0x4000001` is `0xffffffc004000000`, which
  is above the base threshold (`DifficultyNegativeOverflow`). So "a larger
  negative magnitude is easier" holds only down to `-2^26`
  (`DifficultyNegativeMonotone`). The wrap is kept bit-exact, because
  interoperable thresholds depend on it.

## Model

| member | source | states |
|---|---|---|
| `Bytes.Copy` | pow.go:41 | Go's `copy(dst, src)`: the length of `dst` is kept; bytes below `min(len(dst), len(src))` come from `src`, the rest of `dst` is untouched |
| `Bytes.PutUint64Le` | cpu.go:38 | writing a uint64 little-endian into a buffer sets bytes 0..7 to its encoding and leaves every later byte unchanged |
| `Bytes.LeBytes` | cpu.go:38 | `binary.LittleEndian.PutUint64` as a value: eight bytes, byte i being bits 8i..8i+7 of the value |
| `Bytes.BeBytes` | pool.go:51 | `binary.BigEndian.PutUint64` as a value: eight bytes, byte i being bits 8(7-i)..8(7-i)+7 of the value, so byte 0 is the most significant |
| `Bytes.LeUint64` | pow.go:63 | `binary.LittleEndian.Uint64` reads the first eight bytes least significant first, and writing the value back with PutUint64 gives exactly those eight bytes |
| `Bytes.LeUint64OfLeBytes` | cpu.go:38-42 | reading back little-endian bytes written by PutUint64 gives the original uint64 |
| `Bytes.LeDecodeBound` | pow.go:63 | the little-endian reading of n bytes is below 256^n, so eight digest bytes always give a uint64 |
| `Bytes.BeEncodeIsReversedLe` | pool.go:51 | for every width, the big-endian bytes of a number are its little-endian bytes in reverse order |
| `Bytes.ReverseBeBytes` | pool.go:51 | the 8 big-endian bytes written by `Result`, reversed, are the 8 little-endian bytes of the same value |
| `Pow.CalculateDifficulty` | pow.go:26-36 | for m < 0 the threshold is `(MaxUint64 - 0x3fffffffff * -m) mod 2^64`; for m >= 0 it is never below `0xffffffc000000000` |
| `Pow.DifficultyZeroIsOne` | pow.go:31-33 | multiplier 0 gives the same threshold as multiplier 1 |
| `Pow.DifficultyPositive` | pow.go:31-35 | for m > 0 nothing wraps: the threshold is `MaxUint64 - 0x3fffffffff / m`, truncating division, and never below `0xffffffc000000000` |
| `Pow.DifficultyMonotone` | pow.go:31-35 | for 0 <= m1 <= m2 the threshold of m1 is at most that of m2 |
| `Pow.NegationWraps` | pow.go:28 | for every negative int64, including MinInt64, `(MaxUint64 - uint64(m)) + 1` in uint64 arithmetic equals -m |
| `Pow.DifficultyNegativeExact` | pow.go:27-28 | for -2^26 <= m < 0 the product does not wrap: the threshold is the exact difference and at most the base threshold |
| `Pow.DifficultyNegativeMonotone` | pow.go:27-28 | for -2^26 <= m1 <= m2 < 0 the threshold of m1 is at most that of m2 |
| `Pow.DifficultyNegativeOverflow` | pow.go:28 | at m = -0x4000001 the product wraps and the threshold is `0xffffffc004000000`, above the base preset |
| `Pow.PresetValues` | pow.go:15-24 | the presets are `0xffffffc000000000` (V1 base), `0xfffffff800000000` (V2 base) and `0xfffffe0000000007` (V2 receive), ordered receive < V1 < V2 |
| `Pow.NewWork` | pow.go:40-43 | byte i of the new Work is `b[i]` when `i < len(b)`, and 0 otherwise |
| `Pow.NewWorkRoundTrip` | pow.go:40-43 | building a Work from 8 bytes reads back exactly those bytes |
| `Pow.Reversed8Characterised` | pow.go:67-70 | a sequence in which byte i (i < 8) holds byte 7 - i, and every later byte is unchanged, is exactly the reversal |
| `Pow.Reversed8Involution` | pow.go:67-70 | reversing the first eight bytes twice restores the slice |
| `Pow.ReverseInPlace` | pow.go:67-70 | `reverse` on a slice of at least 8 bytes puts old byte 7 - i at position i for i < 8, keeps every later byte, and equals the value-level reversal |
| `Pow.CheckNonce` | pow.go:54-64 | `isValid` is false when the hasher cannot be constructed; otherwise it is true exactly when the little-endian value of the hash over `w` followed by `previous` reaches the threshold |
| `Pow.ValidWorkThresholdMonotone` | pow.go:45-64 | work that passes `IsValid` at a threshold passes at every lower threshold; work valid at the V2 base preset is valid at the V1 base and V2 receive presets |
| `Pow.IsValid` | pow.go:45-64 | `IsValid` is true exactly when the hasher was constructed and the little-endian value of the hash over the reversed work followed by `previous` is at least the threshold; a failed construction gives false |
| `WorkPool.Context.constructor` | pool.go:16-23 | a new context has an empty results queue, no stop signal and is not closed |
| `WorkPool.Context.WorkerStop` | pool.go:25-27 | in a consistent context, a backend polling the stop channel sees the signal exactly when the context is closed |
| `WorkPool.Context.WorkerResult` | pool.go:29-35 | on an open context the value is queued at the back and nothing else changes; on a closed context nothing changes; the queue must have room, since a send on a full channel would block while holding the lock |
| `WorkPool.Context.Cancel` | pool.go:37-44 | afterwards the context is closed, the stop signal is raised and the queue is empty; it must not run on a closed context, because closing a channel twice panics |
| `WorkPool.Context.Clear` | pool.go:56-60 | draining leaves the queue empty and the flags unchanged |
| `WorkPool.Context.Result` | pool.go:46-54 | with a non-empty queue, returns the oldest delivered value as 8 big-endian bytes and leaves the context closed and empty, so any later delivery is dropped |
| `WorkPool.NonNil` | pool.go:77-81 | the launched list is no longer than the worker list, holds exactly the workers that appear as non-nil entries, and holds each as many times as it appears |
| `WorkPool.NonNilAppend` | pool.go:77-81 | skipping nil entries keeps the list's order: filtering two lists joined is joining the two filtered lists |
| `WorkPool.Pool.GenerateWork` | pool.go:74-86 | launches exactly the non-nil workers, in order and each as many times as it is listed, and returns the first delivered value as big-endian Work with no error |
| `WorkPool.GenerateWork` | pool.go:88-95 | with no default pool, or one whose worker list is nil, returns the zero Work and `ErrNoDefaultPoolAvailable`; otherwise returns the pool's result |
| `Cpu.NewWorkerCPUThread` | cpu.go:18-20 | returns a CPU worker holding the given thread count, and never an error |
| `Cpu.PartitionStart` | cpu.go:24 | for i < T the uint64 start is exactly `MaxUint32 + (MaxUint32 / T) * i` with no wrap, and lies in [2^32 - 1, 2^33 - 2] |
| `Cpu.PartitionNextStart` | cpu.go:24 | for i + 1 < T, thread i's start plus the window size `MaxUint32 / T` is thread i + 1's start |
| `Cpu.PartitionIncreasing` | cpu.go:24 | for 1 <= T <= 2^32 - 1 and i < j < T, the start of j is at least the start of i plus the window size `MaxUint32 / T`, which is at least 1 |
| `Cpu.PartitionWindowsDisjoint` | cpu.go:24 | for T <= 2^32 - 1, the first `MaxUint32 / T` candidates of two different threads never coincide |
| `Cpu.PartitionCollapse` | cpu.go:24 | for T > 2^32 - 1 every thread starts at 2^32 - 1 |
| `Cpu.GenerateWork` | cpu.go:22-28 | starts exactly T searches, search i at the partition start of i; all starts are in [2^32 - 1, 2^33 - 2], and strictly increasing when T <= 2^32 - 1; always returns nil |
| `Cpu.AcceptedIffValid` | cpu.go:32-42 | for a 32-byte root, the loop accepts a candidate exactly when the big-endian Work that `Result` makes of it passes `IsValid` |
| `Cpu.CandidateNext` | cpu.go:35 | advancing a candidate by one in uint64 arithmetic gives the next candidate, wrapping at 2^64 |
| `Cpu.CpuSearch.constructor` | cpu.go:30-33 | the search starts at the given candidate, with a 40-byte buffer whose bytes 0..7 are zero and whose bytes 8..39 hold the root truncated or zero-padded to 32 bytes, and an empty hasher |
| `Cpu.CpuSearch.Step` | cpu.go:36-50 | a raised stop signal ends the loop with no delivery; otherwise the candidate is hashed, little-endian and followed by the root; if it is accepted it is delivered once and the loop ends, else the hasher is reset and the candidate advances by 1 mod 2^64; the root bytes never change |
| `Cpu.CpuSearch.Run` | cpu.go:35-51 | candidates are tried in order from the start; at most one is delivered, and it is the first accepted one; without a delivery, none of the tried candidates is accepted; with the stop signal already raised, the loop returns in its first turn without delivering |
| `Cpu.SearchAlone` | cpu_test.go:19-29 | a search alone on a fresh context, read back by `Result`, returns the first accepted candidate as Work, and that Work passes `IsValid` for a 32-byte root; no result means none of the first `fuel` candidates is accepted |

## Left out

- BLAKE2b is the parameter `hash`. Nothing is claimed about its sensitivity to single-bit changes.
- Goroutines, `sync.Mutex`, channel blocking and scheduling are not modelled. Each Context operation is one atomic step. The CPU loop's turns are `Step` calls, between which any other context operation, such as `Cancel`, may run. Liveness is not modelled: nothing says a search eventually finds a nonce.
- WorkPool.Pool.GenerateWork: the launched workers run concurrently in the code, and which of them delivers first is a scheduling outcome. The model takes the first delivered value as the parameter `winner`. It does not tie `winner` to a particular launched worker. For a CPU worker, `Run` and `AcceptedIffValid` show that any value it delivers is valid.
- An empty pool, or a pool whose entries are all nil, blocks forever in `Result`. That case is excluded by a precondition.
- 66 concurrent deliveries can deadlock the code. One is taken by the receive in `Result`, 64 fill the buffer, and the 66th send blocks while holding the lock, so the `Cancel` inside `Result` waits for that lock forever. `WorkerResult` requires room in the queue, so the model does not cover this case.
- Closing the results channel is represented by the `closed` flag. The two always change together under the lock.
- WorkPool.Context.Result: `Cancel` is exported, so a caller may run it before `Result`. `Result` would then receive the zero value from the closed channel at once, and its own `Cancel` would panic on closing the channels a second time. Calling `Cancel` twice panics the same way. The model excludes both sequences through `requires !closed` on `Result` and `Cancel`.
- The GPU backend, the OpenCL kernel, and the Vulkan and unsupported-device stubs are out of scope. They appear only as the opaque `Accelerator` worker.
- `NewWorkerCPU`, `newDefaultPool` and `getDefaultWorkerPool` are not modelled, because they depend on `runtime.NumCPU`, device discovery and a global lazy singleton. The default pool is a parameter of `GenerateWork`.
- `NewPool(w...)` is the value `Pool(Some(w))`, or `Pool(None)` for no arguments. It is not a separate member.
- The backend interface `WorkerGenerator` is the `Worker` datatype.
- Cpu.CpuSearch.Run: the endless loop is bounded by `fuel`.
- The search loop discards the error of `blake2b.New(8, nil)` (cpu.go:31). A nil hasher would panic at `h.Write` (cpu.go:40). `New(8, nil)` cannot fail, since the size is valid and there is no key, so `CpuSearch` is given a hasher that always exists. Only `isValid` keeps the failure branch.
- Cpu.SearchAlone: this runs one search thread, not all `T`. It uses the same hasher for the search and for the check.
- The CPU loop copies only the first 32 bytes of the root into its hash input, while `IsValid` hashes the whole root. So the soundness results (`AcceptedIffValid`, `SearchAlone`) assume a 32-byte root.
