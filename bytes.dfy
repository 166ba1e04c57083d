// Fixed-width integers and the byte-slice primitives the engine relies on:
// Go's `copy`, the uint64 wrap-around operators, and the little- and
// big-endian uint64 codecs of `encoding/binary`.
module Bytes {

  type byte = x: int | 0 <= x < 256

  const TwoTo64: int := 0x1_0000_0000_0000_0000

  /** Go's uint64. */
  type u64 = x: int | 0 <= x < 0x1_0000_0000_0000_0000

  /** Go's int64. */
  type i64 = x: int | -0x8000_0000_0000_0000 <= x < 0x8000_0000_0000_0000

  datatype Option<T> = None | Some(value: T)

  // ---------------------------------------------------------------------
  // uint64 arithmetic: every operator reduces its exact result mod 2^64.
  // ---------------------------------------------------------------------

  function Wrap(x: int): u64 { x % TwoTo64 }

  function Add64(a: u64, b: u64): u64 { Wrap(a + b) }

  function Sub64(a: u64, b: u64): u64 { Wrap(a - b) }

  function Mul64(a: u64, b: u64): u64 { Wrap(a * b) }

  /** Unsigned division truncates; it never wraps. */
  function Div64(a: u64, b: u64): u64
    requires b != 0
  {
    a / b
  }

  /** The conversion `uint64(m)` of an int64: the same 64 bits read unsigned. */
  function AsUint64(m: i64): u64 { Wrap(m) }

  // ---------------------------------------------------------------------
  // Slices
  // ---------------------------------------------------------------------

  /** What `make([]byte, n)` holds. */
  function Zeros(n: nat): (r: seq<byte>)
    ensures |r| == n && forall i :: 0 <= i < n ==> r[i] == 0
  {
    seq(n, _ => 0)
  }

  /**
   * The contents of `dst` after Go's `copy(dst, src)`: the first
   * min(len(dst), len(src)) bytes come from `src`, the rest are untouched.
   */
  function Copy(dst: seq<byte>, src: seq<byte>): (r: seq<byte>)
    ensures |r| == |dst|
    ensures forall i :: 0 <= i < |dst| ==> r[i] == if i < |src| then src[i] else dst[i]
  {
    if |src| >= |dst| then src[..|dst|] else src + dst[|src|..]
  }

  /** The reversal of a sequence, characterised index by index. */
  function Reverse(s: seq<byte>): (r: seq<byte>)
    ensures |r| == |s|
    ensures forall i :: 0 <= i < |s| ==> r[i] == s[|s| - 1 - i]
  {
    if s == [] then [] else Reverse(s[1..]) + [s[0]]
  }

  lemma ReverseInvolution(s: seq<byte>)
    ensures Reverse(Reverse(s)) == s
  {
  }

  // ---------------------------------------------------------------------
  // Byte-order codecs
  // ---------------------------------------------------------------------

  function Pow256(n: nat): (p: nat)
    ensures p > 0
  {
    if n == 0 then 1 else 256 * Pow256(n - 1)
  }

  /** The low `n` bytes of `x`, least significant first. */
  function LeEncode(x: nat, n: nat): (r: seq<byte>)
    ensures |r| == n
  {
    if n == 0 then [] else [x % 256] + LeEncode(x / 256, n - 1)
  }

  /** The low `n` bytes of `x`, most significant first. */
  function BeEncode(x: nat, n: nat): (r: seq<byte>)
    ensures |r| == n
  {
    if n == 0 then [] else BeEncode(x / 256, n - 1) + [x % 256]
  }

  /** The number whose little-endian bytes are `s`. */
  function LeDecode(s: seq<byte>): nat
  {
    if s == [] then 0 else s[0] + 256 * LeDecode(s[1..])
  }

  lemma {:induction false} LeDecodeBound(s: seq<byte>)
    ensures LeDecode(s) < Pow256(|s|)
  {
    if s != [] {
      LeDecodeBound(s[1..]);
    }
  }

  lemma {:induction false} LeEncodeDecode(x: nat, n: nat)
    requires x < Pow256(n)
    ensures LeDecode(LeEncode(x, n)) == x
  {
    if n > 0 {
      LeEncodeDecode(x / 256, n - 1);
      assert LeEncode(x, n)[1..] == LeEncode(x / 256, n - 1);
    }
  }

  /** The big-endian bytes of `x` are its little-endian bytes backwards. */
  lemma {:induction false} BeEncodeIsReversedLe(x: nat, n: nat)
    ensures Reverse(BeEncode(x, n)) == LeEncode(x, n)
  {
    if n > 0 {
      BeEncodeIsReversedLe(x / 256, n - 1);
      var be, le := BeEncode(x, n), LeEncode(x, n);
      forall i | 0 <= i < n
        ensures Reverse(be)[i] == le[i]
      {
        if i > 0 {
          assert Reverse(BeEncode(x / 256, n - 1))[i - 1] == LeEncode(x / 256, n - 1)[i - 1];
        }
      }
    }
  }

  /** Encoding the little-endian reading of `s` in |s| bytes gives `s` back. */
  lemma {:induction false} LeDecodeEncode(s: seq<byte>)
    ensures LeEncode(LeDecode(s), |s|) == s
  {
    if s != [] {
      LeDecodeEncode(s[1..]);
      var x := LeDecode(s);
      assert x % 256 == s[0] && x / 256 == LeDecode(s[1..]);
    }
  }

  lemma Pow256Of8()
    ensures Pow256(8) == TwoTo64
  {
  }

  lemma MulLeftMono(q: nat, b: nat, c: nat)
    requires b <= c
    ensures q * b <= q * c
  {
    assert q * c - q * b == q * (c - b);
  }

  /** A quotient and remainder that rebuild `x` are the ones division gives. */
  lemma DivUnique(x: nat, d: nat, k: nat, s: nat)
    requires s < d && x == d * k + s
    ensures x / d == k
  {
    var q := x / d;
    if q > k {
      assert d * (k + 1) == d * k + d;
      MulLeftMono(d, k + 1, q);
      assert false;
    } else if q < k {
      assert d * (q + 1) == d * q + d;
      MulLeftMono(d, q + 1, k);
      assert false;
    }
  }

  /** Dividing by `a` and then by `b` is dividing by `a * b`. */
  lemma DivDiv(x: nat, a: nat, b: nat)
    requires a > 0 && b > 0
    ensures x / a / b == x / (a * b)
  {
    var q, r := x / a, x % a;
    var q2, r2 := q / b, q % b;
    RemainderBound(a, b, r2, r);
    Regroup(a, b, q, q2, r2);
    DivUnique(x, a * b, q2, a * r2 + r);
  }

  lemma RemainderBound(a: nat, b: nat, r2: nat, r: nat)
    requires r2 < b && r < a
    ensures a * r2 + r < a * b
  {
    MulLeftMono(a, r2, b - 1);
    assert a * (b - 1) == a * b - a;
  }

  lemma Regroup(a: nat, b: nat, q: nat, q2: nat, r2: nat)
    requires q == b * q2 + r2
    ensures a * q == (a * b) * q2 + a * r2
  {
    assert a * (b * q2 + r2) == a * (b * q2) + a * r2;
    assert a * (b * q2) == (a * b) * q2;
  }

  /** Byte i of the little-endian encoding is bits 8i..8i+7 of `x`. */
  lemma {:induction false} LeEncodeDigits(x: nat, n: nat)
    ensures forall i :: 0 <= i < n ==> LeEncode(x, n)[i] == x / Pow256(i) % 256
  {
    if n > 0 {
      LeEncodeDigits(x / 256, n - 1);
      forall i | 0 < i < n
        ensures LeEncode(x, n)[i] == x / Pow256(i) % 256
      {
        assert LeEncode(x, n)[i] == LeEncode(x / 256, n - 1)[i - 1];
        DivDiv(x, 256, Pow256(i - 1));
      }
    }
  }

  /** Byte i of the big-endian encoding in n bytes is bits 8(n-1-i)..8(n-1-i)+7 of `x`. */
  lemma BeEncodeDigits(x: nat, n: nat)
    ensures forall i :: 0 <= i < n ==> BeEncode(x, n)[i] == x / Pow256(n - 1 - i) % 256
  {
    BeEncodeIsReversedLe(x, n);
    LeEncodeDigits(x, n);
    forall i | 0 <= i < n
      ensures BeEncode(x, n)[i] == x / Pow256(n - 1 - i) % 256
    {
      assert Reverse(BeEncode(x, n))[n - 1 - i] == BeEncode(x, n)[i];
    }
  }

  /** `binary.LittleEndian.PutUint64` as a value: byte i is bits 8i..8i+7 of `x`. */
  function LeBytes(x: u64): (r: seq<byte>)
    ensures |r| == 8
    ensures forall i :: 0 <= i < 8 ==> r[i] == x / Pow256(i) % 256
  {
    LeEncodeDigits(x, 8);
    LeEncode(x, 8)
  }

  /** `binary.BigEndian.PutUint64` as a value: byte 0 is the most significant. */
  function BeBytes(x: u64): (r: seq<byte>)
    ensures |r| == 8
    ensures forall i :: 0 <= i < 8 ==> r[i] == x / Pow256(7 - i) % 256
  {
    BeEncodeDigits(x, 8);
    BeEncode(x, 8)
  }

  /**
   * `binary.LittleEndian.Uint64`: reads the first eight bytes of `b`, least
   * significant first; writing the value back gives those eight bytes.
   */
  function LeUint64(b: seq<byte>): (r: u64)
    requires |b| >= 8
    ensures r == LeDecode(b[..8])
    ensures LeBytes(r) == b[..8]
  {
    LeDecodeBound(b[..8]);
    Pow256Of8();
    LeDecodeEncode(b[..8]);
    LeDecode(b[..8])
  }

  /** Reading back what PutUint64 wrote gives the original value. */
  lemma LeUint64OfLeBytes(x: u64)
    ensures LeUint64(LeBytes(x)) == x
  {
    Pow256Of8();
    LeEncodeDecode(x, 8);
    assert LeBytes(x)[..8] == LeBytes(x);
  }

  /** The big-endian encoding reversed is the little-endian encoding. */
  lemma ReverseBeBytes(x: u64)
    ensures Reverse(BeBytes(x)) == LeBytes(x)
  {
    BeEncodeIsReversedLe(x, 8);
  }

  /**
   * `binary.LittleEndian.PutUint64(a[:8], x)`: overwrites the first eight
   * bytes of `a` and leaves the rest alone.
   */
  method PutUint64Le(a: array<byte>, x: u64)
    requires a.Length >= 8
    modifies a
    ensures a[..8] == LeBytes(x)
    ensures a[8..] == old(a[8..])
  {
    var b := LeBytes(x);
    forall i | 0 <= i < 8 {
      a[i] := b[i];
    }
  }
}
