/**
 * Bytes and the fixed-width fields of the UCSF wire format: big-endian
 * unsigned 32-bit integers, NUL-padded strings and opaque 4-byte words
 * (the single-precision floats, whose IEEE-754 decoding is not modelled).
 */
module Bytes {
  type byte = b: int | 0 <= b < 256

  /** A 4-byte big-endian word as stored on disk (a `>f` or `>I` field). */
  type Word = w: seq<byte> | |w| == 4 witness [0, 0, 0, 0]

  const ZeroWord: Word := [0, 0, 0, 0]

  function Zeros(n: nat): (z: seq<byte>)
    ensures |z| == n && forall i :: 0 <= i < n ==> z[i] == 0
  {
    seq(n, _ => 0)
  }

  /** `struct.pack('>I', n)`: the caller must pass a value that fits in 32 bits. */
  function BeU32(n: nat): (w: Word)
    requires n < 0x1_0000_0000
  {
    [n / 0x100_0000, (n / 0x1_0000) % 0x100, (n / 0x100) % 0x100, n % 0x100]
  }

  /** `struct.unpack('>I', w)[0]`. */
  function ReadBeU32(w: seq<byte>): nat
    requires |w| == 4
  {
    ((w[0] as int * 0x100 + w[1]) * 0x100 + w[2]) * 0x100 + w[3]
  }

  lemma ReadBeU32Bound(w: seq<byte>)
    requires |w| == 4
    ensures ReadBeU32(w) < 0x1_0000_0000
  {
    var a: int := w[0] as int * 0x100 + w[1];
    assert a <= 0xFFFF;
    var b: int := a * 0x100 + w[2];
    assert b <= 0xFF_FFFF;
  }

  /** Writing a 32-bit field and reading it back gives the value written. */
  lemma BeU32RoundTrip(n: nat)
    requires n < 0x1_0000_0000
    ensures ReadBeU32(BeU32(n)) == n
  {
    var q3 := n / 0x100;
    var q2 := q3 / 0x100;
    var q1 := q2 / 0x100;
    assert n == q3 * 0x100 + n % 0x100;
    assert q3 == q2 * 0x100 + q3 % 0x100;
    assert q2 == q1 * 0x100 + q2 % 0x100;
    assert n / 0x1_0000 == q2;
    assert n / 0x100_0000 == q1;
  }

  /**
   * `struct.pack('<n>s', s)`: the first n bytes of s, padded with NUL bytes
   * when s is shorter.
   */
  function Pad(s: seq<byte>, n: nat): (r: seq<byte>)
    ensures |r| == n
    ensures forall i :: 0 <= i < n ==> r[i] == if i < |s| then s[i] else 0
  {
    if |s| >= n then s[..n] else s + Zeros(n - |s|)
  }

  /** `s.replace('\x00', '')`: every NUL byte removed, wherever it stands. */
  function StripNul(s: seq<byte>): (r: seq<byte>)
    ensures |r| <= |s|
    ensures 0 !in r
  {
    if s == [] then []
    else if s[0] == 0 then StripNul(s[1..])
    else [s[0]] + StripNul(s[1..])
  }

  lemma {:induction false} StripNulOfZeros(n: nat)
    ensures StripNul(Zeros(n)) == []
  {
    if n > 0 {
      assert Zeros(n)[1..] == Zeros(n - 1);
      StripNulOfZeros(n - 1);
    }
  }

  lemma {:induction false} StripNulAppend(s: seq<byte>, t: seq<byte>)
    ensures StripNul(s + t) == StripNul(s) + StripNul(t)
  {
    if s != [] {
      assert (s + t)[1..] == s[1..] + t;
      StripNulAppend(s[1..], t);
    } else {
      assert s + t == t;
    }
  }

  lemma {:induction false} StripNulIdentity(s: seq<byte>)
    requires 0 !in s
    ensures StripNul(s) == s
  {
    if s != [] {
      StripNulIdentity(s[1..]);
    }
  }

  /**
   * A name of at most n bytes without NUL survives being padded to n bytes
   * and stripped of NUL bytes again.
   */
  lemma PadStripRoundTrip(s: seq<byte>, n: nat)
    requires |s| <= n && 0 !in s
    ensures StripNul(Pad(s, n)) == s
  {
    assert Pad(s, n) == s + Zeros(n - |s|);
    StripNulAppend(s, Zeros(n - |s|));
    StripNulOfZeros(n - |s|);
    StripNulIdentity(s);
  }
}
