/** Byte strings and the Python built-ins the RSA engine uses on them:
    int.from_bytes / int(hexlify(b), 16), int.to_bytes, int.bit_length,
    struct.pack for '>H' and '>I', and slicing that clamps at the end. */
module Bytes {
  import opened Wrappers

  type byte = x: int | 0 <= x < 256

  function Pow256(k: nat): (r: nat)
    ensures r > 0
  {
    if k == 0 then 1 else 256 * Pow256(k - 1)
  }

  function Pow2(k: nat): (r: nat)
    ensures r > 0
  {
    if k == 0 then 1 else 2 * Pow2(k - 1)
  }

  lemma {:induction false} Pow2Monotone(a: nat, b: nat)
    requires a <= b
    ensures Pow2(a) <= Pow2(b)
    decreases b - a
  {
    if a < b {
      Pow2Monotone(a, b - 1);
    }
  }

  lemma {:induction false} Pow256Monotone(a: nat, b: nat)
    requires a <= b
    ensures Pow256(a) <= Pow256(b)
    decreases b - a
  {
    if a < b {
      Pow256Monotone(a, b - 1);
    }
  }

  lemma {:induction false} Pow256IsPow2(k: nat)
    ensures Pow256(k) == Pow2(8 * k)
  {
    if k > 0 {
      Pow256IsPow2(k - 1);
      var m := 8 * (k - 1);
      assert Pow2(m + 8) == 2 * Pow2(m + 7) == 4 * Pow2(m + 6) == 8 * Pow2(m + 5)
        == 16 * Pow2(m + 4) == 32 * Pow2(m + 3) == 64 * Pow2(m + 2)
        == 128 * Pow2(m + 1) == 256 * Pow2(m);
    }
  }

  /** The unsigned big-endian value of a byte string. */
  function BytesToNat(s: seq<byte>): (r: nat)
    ensures r < Pow256(|s|)
  {
    if |s| == 0 then 0 else BytesToNat(s[..|s| - 1]) * 256 + s[|s| - 1]
  }

  /** x.to_bytes(w, 'big'): the w-byte big-endian encoding of x. */
  function NatToBytes(w: nat, x: nat): (r: seq<byte>)
    requires x < Pow256(w)
    ensures |r| == w
    ensures BytesToNat(r) == x
  {
    if w == 0 then []
    else
      var init := NatToBytes(w - 1, x / 256);
      assert (init + [x % 256])[..w - 1] == init;
      init + [x % 256]
  }

  /** The big-endian value of a concatenation. */
  lemma {:induction false} BytesToNatAppend(a: seq<byte>, b: seq<byte>)
    ensures BytesToNat(a + b) == BytesToNat(a) * Pow256(|b|) + BytesToNat(b)
    decreases |b|
  {
    if |b| > 0 {
      var b' := b[..|b| - 1];
      var last := b[|b| - 1];
      assert (a + b)[..|a + b| - 1] == a + b';
      assert (a + b)[|a + b| - 1] == last;
      BytesToNatAppend(a, b');
      var A, P, B := BytesToNat(a), Pow256(|b'|), BytesToNat(b');
      assert BytesToNat(a + b) == (A * P + B) * 256 + last;
      assert BytesToNat(b) == B * 256 + last;
      assert Pow256(|b|) == P * 256;
      ShiftDistributes(A, P, B);
    } else {
      assert a + b == a;
    }
  }

  lemma ShiftDistributes(a: int, p: int, b: int)
    ensures (a * p + b) * 256 == a * (p * 256) + b * 256
  {
  }

  /** Leading zero bytes do not change the value. */
  lemma LeadingZero(s: seq<byte>)
    ensures BytesToNat([0] + s) == BytesToNat(s)
  {
    BytesToNatAppend([0], s);
  }

  /** A byte string is the only encoding of its value at its own width. */
  lemma {:induction false} NatToBytesOfBytesToNat(s: seq<byte>)
    ensures NatToBytes(|s|, BytesToNat(s)) == s
    decreases |s|
  {
    if |s| > 0 {
      var s' := s[..|s| - 1];
      var x := BytesToNat(s);
      assert x / 256 == BytesToNat(s') && x % 256 == s[|s| - 1];
      NatToBytesOfBytesToNat(s');
      assert s == s' + [s[|s| - 1]];
    }
  }

  /** int.bit_length(): the number of binary digits of x, 0 for 0. */
  function BitLength(x: nat): (r: nat)
    ensures x < Pow2(r)
    ensures x == 0 <==> r == 0
    ensures x > 0 ==> Pow2(r - 1) <= x
  {
    if x == 0 then 0 else 1 + BitLength(x / 2)
  }

  /** The width used for signatures, int((x.bit_length() + 7) / 8). The
      float division is exact here, so it is the ceiling of bit_length / 8. */
  function ByteLength(x: nat): (r: nat)
    ensures x < Pow256(r)
    ensures r > 0 ==> Pow256(r - 1) <= x
    ensures x == 0 <==> r == 0
  {
    var r := (BitLength(x) + 7) / 8;
    ByteLengthBounds(x, r);
    r
  }

  lemma ByteLengthBounds(x: nat, r: nat)
    requires r == (BitLength(x) + 7) / 8
    ensures x < Pow256(r)
    ensures r > 0 ==> Pow256(r - 1) <= x
  {
    var bl := BitLength(x);
    Pow256IsPow2(r);
    Pow2Monotone(bl, 8 * r);
    if r > 0 {
      Pow256IsPow2(r - 1);
      Pow2Monotone(8 * (r - 1), bl - 1);
    }
  }

  /** ByteLength(x) is the least width that holds x. */
  lemma ByteLengthAtMost(x: nat, w: nat)
    requires x < Pow256(w)
    ensures ByteLength(x) <= w
  {
    var r := ByteLength(x);
    if r > w {
      Pow256Monotone(w, r - 1);
    }
  }

  /** x.to_bytes(ByteLength(x), 'big'): the shortest big-endian encoding. */
  function MinimalBytes(x: nat): (r: seq<byte>)
    ensures BytesToNat(r) == x
    ensures |r| == ByteLength(x)
    ensures |r| > 0 ==> r[0] != 0
    ensures x == 0 <==> r == []
  {
    var r := NatToBytes(ByteLength(x), x);
    LeadingByteNonZero(r);
    r
  }

  /** A string whose value needs all of its bytes starts with a non-zero byte. */
  lemma LeadingByteNonZero(r: seq<byte>)
    requires |r| > 0 ==> Pow256(|r| - 1) <= BytesToNat(r)
    ensures |r| > 0 ==> r[0] != 0
  {
    if |r| > 0 {
      BytesToNatAppend([r[0]], r[1..]);
      assert [r[0]] + r[1..] == r;
      assert BytesToNat([r[0]]) == r[0];
    }
  }

  /** struct.pack('>H', x) for the constants the engine packs. */
  function Be16(x: nat): (r: seq<byte>)
    requires x < 0x1_0000
    ensures |r| == 2 && BytesToNat(r) == x
  {
    var r := [x / 256, x % 256];
    Be16Value(x, r);
    r
  }

  lemma Be16Value(x: nat, r: seq<byte>)
    requires x < 0x1_0000 && r == [x / 256, x % 256]
    ensures BytesToNat(r) == x
  {
    TwoBytesValue(x / 256, x % 256);
  }

  /** The value of a two-byte string. */
  lemma TwoBytesValue(hi: byte, lo: byte)
    ensures BytesToNat([hi, lo]) == hi * 256 + lo
  {
    assert [hi, lo][..1] == [hi] && [hi][..0] == [];
  }

  /** struct.pack('>I', x), which raises struct.error outside 0 <= x < 2^32. */
  function PackU32(x: int): (r: Option<seq<byte>>)
    ensures r.Some? <==> 0 <= x < 0x1_0000_0000
    ensures r.Some? ==> |r.value| == 4 && BytesToNat(r.value) == x
  {
    if 0 <= x < 0x1_0000_0000 then Some(NatToBytes(4, x)) else None
  }

  /** Python's s[i:j] for 0 <= i, j: the bounds are clamped to the length. */
  function Slice(s: seq<byte>, i: nat, j: nat): (r: seq<byte>)
    ensures i <= j <= |s| ==> r == s[i..j]
    ensures i <= |s| <= j ==> r == s[i..]
    ensures |s| <= i ==> r == []
  {
    var lo := if i < |s| then i else |s|;
    var hi := if j < |s| then j else |s|;
    if hi <= lo then [] else s[lo..hi]
  }

  /** Python's s[i:] for 0 <= i. */
  function SliceFrom(s: seq<byte>, i: nat): (r: seq<byte>)
    ensures i <= |s| ==> r == s[i..]
    ensures |s| <= i ==> r == []
  {
    if i < |s| then s[i..] else []
  }
}
