// Difficulty thresholds and the validity check of a work value (pow.go).
module Pow {
  import opened Bytes

  datatype PowError = ErrNotSupported | ErrNoDeviceAvailable | ErrNoDefaultPoolAvailable

  /** The 8-byte nonce handed to callers (Go's `Work [8]byte`). */
  type Work = s: seq<byte> | |s| == 8 witness [0, 0, 0, 0, 0, 0, 0, 0]

  /** An 8-byte BLAKE2b digest. */
  type Digest = s: seq<byte> | |s| == 8 witness [0, 0, 0, 0, 0, 0, 0, 0]

  /**
   * A BLAKE2b hasher configured for an 8-byte digest and no key: the digest
   * of everything written to it since it was created or last reset. The
   * hash itself lies outside the model, so it is a parameter.
   */
  type HashFn = seq<byte> -> Digest

  const MaxUint64: u64 := 0xffff_ffff_ffff_ffff

  /** baseDifficulty = 0x3f_ffff_ffff. */
  const BaseDifficulty: u64 := MaxUint64 - 0xffff_ffc0_0000_0000

  /** Threshold of multiplier 1: every positive multiplier lands at or above it. */
  const BaseThreshold: u64 := 0xffff_ffc0_0000_0000

  /** The largest magnitude whose product with BaseDifficulty stays below 2^64. */
  const MaxUnwrappedMagnitude: int := 0x400_0000

  /**
   * Converts a multiplier into an absolute threshold. Negative multipliers go
   * through the unsigned reinterpretation and back by wrap-around subtraction;
   * multiplier 0 is read as 1. A negative multiplier subtracts |m| times the
   * base difficulty, mod 2^64; a non-negative one never gives a threshold
   * below the base.
   */
  function CalculateDifficulty(multiplier: i64): (r: u64)
    ensures multiplier < 0 ==> r == Wrap(MaxUint64 - BaseDifficulty * -(multiplier as int))
    ensures multiplier >= 0 ==> BaseThreshold <= r
  {
    if multiplier < 0 then
      NegationWraps(multiplier);
      WrapSubWrap(MaxUint64, BaseDifficulty * -(multiplier as int));
      Sub64(MaxUint64, Mul64(BaseDifficulty, Add64(Sub64(MaxUint64, AsUint64(multiplier)), 1)))
    else
      var m: u64 := if multiplier == 0 then 1 else multiplier;
      DivAntitone(BaseDifficulty, 1, m);
      Sub64(MaxUint64, Div64(BaseDifficulty, m))
  }

  const V1BaseDifficult: u64 := CalculateDifficulty(0)
  const V2BaseDifficult: u64 := CalculateDifficulty(8)
  const V2ReceiveDifficult: u64 := CalculateDifficulty(-8)

  lemma DifficultyZeroIsOne()
    ensures CalculateDifficulty(0) == CalculateDifficulty(1)
  {
  }

  /** For a positive multiplier no step wraps and the threshold is at least the base. */
  lemma DifficultyPositive(m: i64)
    requires m > 0
    ensures CalculateDifficulty(m) == MaxUint64 - BaseDifficulty / m
    ensures BaseThreshold <= CalculateDifficulty(m)
  {
    DivAntitone(BaseDifficulty, 1, m);
  }

  /** a / c <= a / b whenever 0 < b <= c. */
  lemma DivAntitone(a: nat, b: nat, c: nat)
    requires 0 < b <= c
    ensures a / c <= a / b
  {
    var q := a / c;
    MulLeftMono(q, b, c);
    assert q * c <= a;
    QuotientIsLargest(a, b, q);
  }

  /** Any q with q * b <= a is at most a / b. */
  lemma QuotientIsLargest(a: nat, b: nat, q: nat)
    requires 0 < b && q * b <= a
    ensures q <= a / b
  {
    var p := a / b;
    if q > p {
      MulLeftMono(b, p + 1, q);
      assert false;
    }
  }

  /** A larger non-negative multiplier never gives an easier threshold. */
  lemma DifficultyMonotone(m1: i64, m2: i64)
    requires 0 <= m1 <= m2
    ensures CalculateDifficulty(m1) <= CalculateDifficulty(m2)
  {
    var a: i64 := if m1 == 0 then 1 else m1;
    var b: i64 := if m2 == 0 then 1 else m2;
    DifficultyPositive(a);
    DifficultyPositive(b);
    DivAntitone(BaseDifficulty, a, b);
  }

  /** `(MaxUint64 - uint64(m)) + 1` wraps back to |m| for every negative int64. */
  lemma NegationWraps(m: i64)
    requires m < 0
    ensures Add64(Sub64(MaxUint64, AsUint64(m)), 1) == -(m as int)
  {
    assert AsUint64(m) == m + TwoTo64;
    assert Sub64(MaxUint64, AsUint64(m)) == -1 - m;
  }

  lemma WrapSubWrap(a: int, b: int)
    ensures Wrap(a - Wrap(b)) == Wrap(a - b)
  {
    var k := b / TwoTo64;
    assert b == Wrap(b) + k * TwoTo64;
    assert a - b == (a - Wrap(b)) - k * TwoTo64;
  }

  /** Down to -2^26 the product does not wrap: the threshold is the exact difference. */
  lemma DifficultyNegativeExact(m: i64)
    requires -MaxUnwrappedMagnitude <= m < 0
    ensures CalculateDifficulty(m) == MaxUint64 - BaseDifficulty * -(m as int)
    ensures CalculateDifficulty(m) <= BaseThreshold
  {
    var mag: nat := -(m as int);
    MulLeftMono(BaseDifficulty, mag, MaxUnwrappedMagnitude);
    MulLeftMono(BaseDifficulty, 1, mag);
    assert BaseDifficulty * MaxUnwrappedMagnitude <= MaxUint64;
  }

  /** In that range a larger magnitude gives an easier (smaller) threshold. */
  lemma DifficultyNegativeMonotone(m1: i64, m2: i64)
    requires -MaxUnwrappedMagnitude <= m1 <= m2 < 0
    ensures CalculateDifficulty(m1) <= CalculateDifficulty(m2)
  {
    DifficultyNegativeExact(m1);
    DifficultyNegativeExact(m2);
    MulLeftMono(BaseDifficulty, -(m2 as int), -(m1 as int));
  }

  /** Just past -2^26 the product wraps and the threshold jumps above the base. */
  lemma DifficultyNegativeOverflow()
    ensures CalculateDifficulty(-0x400_0001) == 0xffff_ffc0_0400_0000
    ensures CalculateDifficulty(-0x400_0001) > V1BaseDifficult
  {
  }

  /** The three presets, and their order: receive < base < V2. */
  lemma PresetValues()
    ensures V1BaseDifficult == 0xffff_ffc0_0000_0000
    ensures V2BaseDifficult == 0xffff_fff8_0000_0000
    ensures V2ReceiveDifficult == 0xffff_fe00_0000_0007
    ensures V2ReceiveDifficult < V1BaseDifficult < V2BaseDifficult
  {
  }

  /** `NewWork(b)`: the first min(len(b), 8) bytes of `b`, zero-padded. */
  function NewWork(b: seq<byte>): (work: Work)
    ensures forall i :: 0 <= i < 8 ==> work[i] == if i < |b| then b[i] else 0
  {
    Copy(Zeros(8), b)
  }

  /** Building a Work from an 8-byte value reads the same bytes back. */
  lemma NewWorkRoundTrip(w: Work)
    ensures NewWork(w) == w
  {
  }

  /** `reverse(v)` as a value: the first eight bytes backwards, the rest kept. */
  function Reversed8(v: seq<byte>): (r: seq<byte>)
    requires |v| >= 8
    ensures |r| == |v|
  {
    Reverse(v[..8]) + v[8..]
  }

  /** Byte i of the first eight moves to 7 - i; every later byte stays put. */
  lemma Reversed8Characterised(v: seq<byte>, r: seq<byte>)
    requires |v| == |r| >= 8
    requires forall i :: 0 <= i < 8 ==> r[i] == v[7 - i]
    requires forall i :: 8 <= i < |v| ==> r[i] == v[i]
    ensures r == Reversed8(v)
  {
    var t := Reversed8(v);
    forall i | 0 <= i < |v|
      ensures r[i] == t[i]
    {
      if i < 8 {
        assert t[i] == Reverse(v[..8])[i];
      }
    }
  }

  lemma {:induction false} Reversed8Involution(v: seq<byte>)
    requires |v| >= 8
    ensures Reversed8(Reversed8(v)) == v
  {
    var r := Reversed8(v);
    assert r[..8] == Reverse(v[..8]);
    ReverseInvolution(v[..8]);
    assert v == v[..8] + v[8..];
  }

  /**
   * `reverse(v)`: swaps bytes 0..7 end for end in place; `v` must hold at
   * least eight bytes.
   */
  method ReverseInPlace(v: array<byte>)
    requires v.Length >= 8
    modifies v
    ensures v[..] == Reversed8(old(v[..]))
    ensures forall i :: 0 <= i < 8 ==> v[i] == old(v[7 - i])
    ensures forall i :: 8 <= i < v.Length ==> v[i] == old(v[i])
  {
    ghost var s := v[..];
    v[0], v[1], v[2], v[3], v[4], v[5], v[6], v[7] := v[7], v[6], v[5], v[4], v[3], v[2], v[1], v[0];
    assert forall i :: 0 <= i < 8 ==> v[i] == s[7 - i];
    Reversed8Characterised(s, v[..]);
  }

  /**
   * `isValid`: hashes `w` followed by `previous` and compares the
   * little-endian reading of the digest with the threshold. `newHash` is the
   * outcome of constructing the hasher; a failed construction means invalid.
   */
  function CheckNonce(newHash: Option<HashFn>, previous: seq<byte>, difficult: u64, w: seq<byte>): (ok: bool)
    ensures newHash.None? ==> !ok
    ensures newHash.Some? ==> (ok <==> LeUint64(newHash.value(w + previous)) >= difficult)
  {
    match newHash
    case None => false
    case Some(hash) => LeUint64(hash(w + previous)) >= difficult
  }

  /** What `IsValid` decides: the check applied to the byte-reversed work. */
  function ValidWork(newHash: Option<HashFn>, previous: seq<byte>, difficult: u64, w: Work): bool
  {
    CheckNonce(newHash, previous, difficult, Reversed8(w))
  }

  /**
   * Work that meets a threshold meets every lower one; so work valid at the
   * V2 base preset is valid at the V1 base and at the V2 receive preset.
   */
  lemma ValidWorkThresholdMonotone(newHash: Option<HashFn>, previous: seq<byte>, d1: u64, d2: u64, w: Work)
    requires d1 <= d2 && ValidWork(newHash, previous, d2, w)
    ensures ValidWork(newHash, previous, d1, w)
    ensures d2 == V2BaseDifficult ==>
              ValidWork(newHash, previous, V1BaseDifficult, w) &&
              ValidWork(newHash, previous, V2ReceiveDifficult, w)
  {
    PresetValues();
  }

  /**
   * `IsValid`: copies `w` into a fresh 8-byte buffer, reverses the buffer and
   * checks it. The caller's `w` is a value and is never changed.
   */
  method IsValid(newHash: Option<HashFn>, previous: seq<byte>, difficult: u64, w: Work) returns (valid: bool)
    ensures valid == ValidWork(newHash, previous, difficult, w)
    ensures valid <==> newHash.Some? && LeUint64(newHash.value(Reversed8(w) + previous)) >= difficult
  {
    var n := new byte[8](_ => 0);
    forall i | 0 <= i < 8 {
      n[i] := w[i];
    }
    assert n[..] == w;
    ReverseInPlace(n);
    valid := CheckNonce(newHash, previous, difficult, n[..]);
  }
}
