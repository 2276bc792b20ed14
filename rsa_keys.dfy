/** The module-level functions of the RSA engine: extended Euclid and the
    modular inverse, the key-slot byte and the delete template of the
    OpenPGP card, and the two PKCS#1 v1.5 encodings (section 9.2 and
    section 7.2.1 of RFC 8017) as the engine writes them. */
module RsaKeys {
  import opened Wrappers
  import opened Bytes
  import opened Arith

  /** The exceptions the engine can raise, one constructor per cause. */
  datatype Error =
    | NoInverse          // Exception('modular inverse does not exist')
    | ZeroDivision       // ZeroDivisionError: a remainder by zero
    | NegativePadLength  // ValueError: os.urandom of a negative length
    | IntegerOverflow    // OverflowError: int.to_bytes out of range
    | ZeroModulus        // ValueError: pow(x, e, 0)
    | EmptySignature     // ValueError: int('', 16) for an empty signature
    | TimestampRange     // struct.error: pack('>I', now) out of range
    | MissingKeyData     // TypeError: no pk_info and no data tuple
    | WrongKey           // ValueError('wrong key', ...): n != p * q
    | MissingPrivateKey  // AttributeError: a public-only key has no p, q

  // ---------------------------------------------------------------------
  // Extended Euclid and modular inverse
  // ---------------------------------------------------------------------

  /** The triple (g, x, y) returned by egcd. */
  datatype Bezout = Bezout(g: int, x: int, y: int)

  /** egcd(a, b). Every recursive call has a positive divisor a, so Python's
      b % a and b // a are Dafny's. Only the top-level b may be negative. */
  function Egcd(a: nat, b: int): (r: Bezout)
    decreases a
    ensures a * r.x + b * r.y == r.g
    ensures Divides(r.g, a) && Divides(r.g, b)
    ensures b >= 0 ==> r.g >= 0
    ensures a == 0 ==> r == Bezout(b, 0, 1)
  {
    if a == 0 then Bezout(b, 0, 1)
    else
      var rec := Egcd(b % a, a);
      var g, y, x := rec.g, rec.x, rec.y;
      EgcdStep(a, b, g, x, y);
      Bezout(g, x - (b / a) * y, y)
  }

  lemma EgcdStep(a: int, b: int, g: int, x: int, y: int)
    requires a > 0
    requires (b % a) * y + a * x == g
    requires Divides(g, b % a) && Divides(g, a)
    ensures a * (x - (b / a) * y) + b * y == g
    ensures Divides(g, b)
  {
    var k := b / a;
    assert b == k * a + b % a;
    assert a * (x - k * y) + b * y == a * x + (b - k * a) * y;
    DividesLinear(g, a, b % a, k, 1);
  }

  /** The g of egcd is a greatest common divisor: every common divisor of a
      and b divides it. */
  lemma EgcdGreatest(a: nat, b: int, c: int)
    requires Divides(c, a) && Divides(c, b)
    ensures Divides(c, Egcd(a, b).g)
  {
    var r := Egcd(a, b);
    DividesBezout(c, a, b, r.x, r.y, r.g);
  }

  lemma DividesBezout(c: int, a: int, b: int, x: int, y: int, g: int)
    requires a * x + b * y == g
    requires Divides(c, a) && Divides(c, b)
    ensures Divides(c, g)
  {
    DividesLinear(c, a, b, x, y);
  }

  /** modinv(a, m): raises when the gcd is not 1; otherwise x % m, which is
      a ZeroDivisionError for m == 0 and has the sign of m. */
  function ModInv(a: nat, m: int): (r: Result<int, Error>)
    ensures r.Success? <==> Egcd(a, m).g == 1 && m != 0
    ensures r == Failure(NoInverse) <==> Egcd(a, m).g != 1
    ensures r == Failure(ZeroDivision) <==> Egcd(a, m).g == 1 && m == 0
    ensures r.Success? ==> Divides(m, a * r.value - 1)
    ensures r.Success? && m > 0 ==> 0 <= r.value < m && (a * r.value) % m == 1 % m
    ensures r.Success? && m < 0 ==> m < r.value <= 0
  {
    var b := Egcd(a, m);
    if b.g != 1 then Failure(NoInverse)
    else if m == 0 then Failure(ZeroDivision)
    else
      var x := PyMod(b.x, m);
      ModInvCongruent(a, m, b.x, b.y, x);
      Success(x)
  }

  lemma ModInvCongruent(a: int, m: int, u: int, v: int, x: int)
    requires m != 0
    requires a * u + m * v == 1
    requires Divides(m, u - x)
    ensures Divides(m, a * x - 1)
    ensures m > 0 ==> (a * x) % m == 1 % m
  {
    MultipleDivides(m, 1);
    InverseShift(a, m, u, v, x);
    DividesLinear(m, u - x, m, -a, -v);
    if m > 0 {
      DividesDifference(m, a * x, 1);
    }
  }

  lemma InverseShift(a: int, m: int, u: int, v: int, x: int)
    requires a * u + m * v == 1
    ensures a * x - 1 == (-a) * (u - x) + (-v) * m
  {
  }

  /** modinv succeeds whenever an inverse exists. */
  lemma ModInvComplete(a: nat, m: int, x: int)
    requires m > 1 && (a * x) % m == 1
    ensures ModInv(a, m).Success?
  {
    var r := Egcd(a, m);
    var k := (a * x) / m;
    assert a * x == k * m + 1;
    assert x * a + (-k) * m == 1;
    DividesLinear(r.g, a, m, x, -k);
    if r.g > 1 {
      ModUnique(1, r.g, 0, 1);
    }
  }

  // ---------------------------------------------------------------------
  // OpenPGP card key slots
  // ---------------------------------------------------------------------

  /** The control-reference tag of a key slot: 1 signing, 2 decryption,
      anything else authentication. */
  function KeySpec(openpgpKeyno: int): (r: byte)
    ensures r == 0xB6 <==> openpgpKeyno == 1
    ensures r == 0xB8 <==> openpgpKeyno == 2
    ensures r == 0xA4 <==> openpgpKeyno != 1 && openpgpKeyno != 2
  {
    if openpgpKeyno == 1 then 0xB6
    else if openpgpKeyno == 2 then 0xB8
    else 0xA4
  }

  /** build_privkey_template_for_remove: an Extended Header List (tag 4D)
      whose length byte covers the slot tag and its empty value. */
  function BuildPrivkeyTemplateForRemove(openpgpKeyno: int): (r: seq<byte>)
    ensures |r| == 4 && r[0] == 0x4D && r[1] == |r| - 2
    ensures r[2] == KeySpec(openpgpKeyno) && r[3] == 0
  {
    [0x4D, 0x02] + [KeySpec(openpgpKeyno)] + [0x00]
  }

  // ---------------------------------------------------------------------
  // EMSA-PKCS1-v1_5 (signatures)
  // ---------------------------------------------------------------------

  /** The number of FF bytes, fixed for a 51-byte SHA-256 DigestInfo. */
  const SignPadLength: nat := 256 - 19 - 32 - 3

  /** 00 01 FF..FF 00 digestinfo, with 202 FF bytes whatever the input. */
  function SignBlock(digestInfo: seq<byte>): (b: seq<byte>)
    ensures |b| == 205 + |digestInfo|
    ensures b[0] == 0x00 && b[1] == 0x01 && b[204] == 0x00
    ensures forall i :: 2 <= i < 204 ==> b[i] == 0xFF
    ensures b[205..] == digestInfo
  {
    [0x00, 0x01] + seq(SignPadLength, _ => 0xFF) + [0x00] + digestInfo
  }

  /** pkcs1_pad_for_sign: the block read as a big-endian integer. */
  function PadForSign(digestInfo: seq<byte>): (m: nat)
    ensures m < Pow256(204 + |digestInfo|)
    ensures m < Pow256(|SignBlock(digestInfo)|)
    ensures NatToBytes(|SignBlock(digestInfo)|, m) == SignBlock(digestInfo)
    ensures |digestInfo| == 51 ==> NatToBytes(256, m) == SignBlock(digestInfo)
  {
    SignBlockValue(digestInfo);
    BytesToNat(SignBlock(digestInfo))
  }

  lemma SignBlockValue(digestInfo: seq<byte>)
    ensures BytesToNat(SignBlock(digestInfo)) < Pow256(204 + |digestInfo|)
    ensures NatToBytes(|SignBlock(digestInfo)|, BytesToNat(SignBlock(digestInfo))) == SignBlock(digestInfo)
  {
    var b := SignBlock(digestInfo);
    var rest := b[1..];
    assert b == [0x00] + rest;
    BytesToNatAppend([0x00], rest);
    assert BytesToNat([0x00]) == 0;
    NatToBytesOfBytesToNat(b);
  }

  /** The DigestInfo a 256-byte message representative carries, if it has
      the signature layout: the check a verifier following RFC 8017 makes. */
  function EmsaDigestInfo(m: nat): Option<seq<byte>> {
    if m >= Pow256(256) then None
    else
      var b := NatToBytes(256, m);
      if b[..205] == SignBlock([]) then Some(b[205..]) else None
  }

  /** Padding is invertible: a representative decodes to a DigestInfo
      exactly when it is the padding of that 51-byte DigestInfo. */
  lemma PadForSignInverse(m: nat, digestInfo: seq<byte>)
    ensures EmsaDigestInfo(m) == Some(digestInfo)
      <==> |digestInfo| == 51 && PadForSign(digestInfo) == m
  {
    if |digestInfo| == 51 && PadForSign(digestInfo) == m {
      PadForSignDecodes(digestInfo);
    }
    if EmsaDigestInfo(m) == Some(digestInfo) {
      EmsaDigestInfoPadded(m);
    }
  }

  lemma PadForSignDecodes(digestInfo: seq<byte>)
    requires |digestInfo| == 51
    ensures EmsaDigestInfo(PadForSign(digestInfo)) == Some(digestInfo)
  {
  }

  lemma EmsaDigestInfoPadded(m: nat)
    requires EmsaDigestInfo(m).Some?
    ensures |EmsaDigestInfo(m).value| == 51 && PadForSign(EmsaDigestInfo(m).value) == m
  {
    var b := NatToBytes(256, m);
    HeaderedBlock(b);
    assert PadForSign(b[205..]) == BytesToNat(b);
  }

  lemma HeaderedBlock(b: seq<byte>)
    requires |b| == 256 && b[..205] == SignBlock([])
    ensures |b[205..]| == 51 && SignBlock(b[205..]) == b
  {
  }

  // ---------------------------------------------------------------------
  // EME-PKCS1-v1_5 (encryption)
  // ---------------------------------------------------------------------

  /** bytes.replace(r, b'\x00', b'\x01'): every zero byte becomes 01. */
  function NonZeroPadding(r: seq<byte>): (ps: seq<byte>)
    ensures |ps| == |r|
    ensures forall i :: 0 <= i < |r| ==> ps[i] != 0
    ensures forall i :: 0 <= i < |r| ==> ps[i] == if r[i] == 0 then 0x01 else r[i]
  {
    seq(|r|, i requires 0 <= i < |r| => if r[i] == 0 then 0x01 else r[i])
  }

  /** 00 02 PS 00 msg, where PS is the random string with zeros replaced. */
  function CryptBlock(msg: seq<byte>, rnd: seq<byte>): seq<byte> {
    [0x00, 0x02] + NonZeroPadding(rnd) + [0x00] + msg
  }

  /** pkcs1_pad_for_crypt. The random source supplies exactly the
      253 - |msg| bytes asked of it; a longer message makes that length
      negative, which os.urandom rejects. No minimum padding is enforced. */
  function PadForCrypt(msg: seq<byte>, rnd: seq<byte>): (r: Result<nat, Error>)
    requires |msg| <= 253 ==> |rnd| == 253 - |msg|
    ensures r.Success? <==> |msg| <= 253
    ensures r.Success? ==> r.value < Pow256(256)
    ensures r.Success? ==> NatToBytes(256, r.value) == CryptBlock(msg, rnd)
  {
    if |msg| > 253 then Failure(NegativePadLength)
    else
      CryptBlockValue(msg, rnd);
      Success(BytesToNat(CryptBlock(msg, rnd)))
  }

  lemma CryptBlockValue(msg: seq<byte>, rnd: seq<byte>)
    requires |msg| <= 253 && |rnd| == 253 - |msg|
    ensures BytesToNat(CryptBlock(msg, rnd)) < Pow256(256)
    ensures NatToBytes(256, BytesToNat(CryptBlock(msg, rnd))) == CryptBlock(msg, rnd)
  {
    var b := CryptBlock(msg, rnd);
    assert |NonZeroPadding(rnd)| == |rnd|;
    assert |b| == 256;
    NatToBytesOfBytesToNat(b);
  }

  /** The first zero byte of s at or after from. */
  function FirstZero(s: seq<byte>, from: nat): (r: Option<nat>)
    decreases |s| - from
    ensures r.Some? ==> from <= r.value < |s| && s[r.value] == 0
    ensures r.Some? ==> forall i :: from <= i < r.value ==> s[i] != 0
    ensures r.None? ==> forall i :: from <= i < |s| ==> s[i] != 0
  {
    if from >= |s| then None
    else if s[from] == 0 then Some(from)
    else FirstZero(s, from + 1)
  }

  /** The message a 256-byte representative carries, if it has the
      encryption layout: the decoding step of section 7.2.2 of RFC 8017
      (without its 8-byte minimum, which the padding does not keep). */
  function EmeMessage(m: nat): Option<seq<byte>> {
    if m >= Pow256(256) then None
    else
      var b := NatToBytes(256, m);
      if b[0] != 0x00 || b[1] != 0x02 then None
      else match FirstZero(b, 2)
        case None => None
        case Some(i) => Some(b[i + 1..])
  }

  /** Decoding the padded representative gives back the message. */
  lemma PadForCryptDecodes(msg: seq<byte>, rnd: seq<byte>)
    requires |msg| <= 253 && |rnd| == 253 - |msg|
    ensures EmeMessage(PadForCrypt(msg, rnd).value) == Some(msg)
  {
    var b := CryptBlock(msg, rnd);
    var k := 2 + |rnd|;
    assert b[k] == 0x00;
    assert forall i :: 2 <= i < k ==> b[i] == NonZeroPadding(rnd)[i - 2];
    assert FirstZero(b, 2) == Some(k);
    assert b[k + 1..] == msg;
  }

  /** integer_to_bytes_256: the fixed 256-byte big-endian encoding. */
  function IntegerToBytes256(i: int): (r: Result<seq<byte>, Error>)
    ensures r.Success? <==> 0 <= i < Pow256(256)
    ensures r.Success? ==> |r.value| == 256 && BytesToNat(r.value) == i
    ensures r.Failure? ==> r.error == IntegerOverflow
  {
    if 0 <= i < Pow256(256) then Success(NatToBytes(256, i)) else Failure(IntegerOverflow)
  }
}
