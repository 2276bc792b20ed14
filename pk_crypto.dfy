/** The PK_Crypto engine. A key is built once, by New, and never changes
    afterwards, so it is an immutable record; the operations are functions
    of it. The hash functions are parameters, and the clock and the random
    source are supplied by the caller. */
module PkCrypto {
  import opened Wrappers
  import opened Bytes
  import opened Arith
  import opened RsaKeys

  type Digest20 = s: seq<byte> | |s| == 20 witness seq(20, _ => 0)
  type Digest32 = s: seq<byte> | |s| == 32 witness seq(32, _ => 0)

  /** hashlib.sha1 and hashlib.sha256, as functions of the message. */
  type Sha1 = seq<byte> -> Digest20
  type Sha256 = seq<byte> -> Digest32

  /** The `data` tuple (e, n, p, q) of big-endian byte strings. */
  datatype KeyData = KeyData(bytesE: seq<byte>, bytesN: seq<byte>, bytesP: seq<byte>, bytesQ: seq<byte>)

  /** The fields only a key built from its factors has. */
  datatype PrivatePart = PrivatePart(bytesP: seq<byte>, bytesQ: seq<byte>, p: nat, q: nat)

  /** The CRT exponents and coefficient computed for every signature. */
  datatype CrtKey = CrtKey(d: int, dp: nat, dq: nat, qp: nat)

  /** The SHA-256 DigestInfo prefix (Note 1 of section 9.2 of RFC 8017). */
  const DigestInfoPrefix: seq<byte> :=
    [0x30, 0x31, 0x30, 0x0d, 0x06, 0x09, 0x60, 0x86, 0x48, 0x01,
     0x65, 0x03, 0x04, 0x02, 0x01, 0x05, 0x00, 0x04, 0x20]

  /** The length field calc_fpr writes: 270, whatever the exponent's size. */
  const FprBodyLength: nat := 6 + 2 + 256 + 2 + 4

  /** The hashed form of the OpenPGP v4 public-key packet (section 12.2 of
      RFC 4880; body as in section 5.5.2): tag 99, a two-byte length,
      version 4, creation time, algorithm 1 (RSA), then n and e as MPIs
      whose bit counts are written as 2048 and 17. */
  function FprMessage(timestamp: seq<byte>, bytesN: seq<byte>, bytesE: seq<byte>): seq<byte> {
    [0x99] + Be16(FprBodyLength) + [0x04] + timestamp + [0x01] +
    Be16(2048) + bytesN + Be16(17) + bytesE
  }

  /** The fields of the fingerprint message lie at fixed offsets when the
      timestamp has 4 bytes and the modulus 256. */
  lemma FprMessageLayout(timestamp: seq<byte>, bytesN: seq<byte>, bytesE: seq<byte>)
    requires |timestamp| == 4 && |bytesN| == 256
    ensures var m := FprMessage(timestamp, bytesN, bytesE);
      && |m| == 269 + |bytesE|
      && m[0] == 0x99 && BytesToNat(m[1..3]) == 270 && m[3] == 0x04
      && m[4..8] == timestamp && m[8] == 0x01 && BytesToNat(m[9..11]) == 2048
      && m[11..267] == bytesN && BytesToNat(m[267..269]) == 17
      && m[269..] == bytesE
  {
  }

  /** The length field equals the length of the packet body that follows it
      exactly when the exponent has 4 bytes. */
  lemma FprLengthFieldExact(timestamp: seq<byte>, bytesN: seq<byte>, bytesE: seq<byte>)
    requires |timestamp| == 4 && |bytesN| == 256
    ensures var m := FprMessage(timestamp, bytesN, bytesE);
      BytesToNat(m[1..3]) == |m| - 3 <==> |bytesE| == 4
  {
    FprMessageLayout(timestamp, bytesN, bytesE);
  }

  /** Different key material gives different fingerprint messages. */
  lemma FprMessageInjective(t1: seq<byte>, n1: seq<byte>, e1: seq<byte>,
                            t2: seq<byte>, n2: seq<byte>, e2: seq<byte>)
    requires |t1| == 4 && |n1| == 256 && |t2| == 4 && |n2| == 256
    requires FprMessage(t1, n1, e1) == FprMessage(t2, n2, e2)
    ensures t1 == t2 && n1 == n2 && e1 == e2
  {
    FprMessageLayout(t1, n1, e1);
    FprMessageLayout(t2, n2, e2);
  }

  /** The private-key import template of build_privkey_template: an
      Extended Header List (4D) holding the slot tag, a Cardholder Private
      Key Template (7F48) giving the sizes of e, p and q, and the
      concatenated key data (5F48). The variant without the yubikey flag
      stores e with a leading zero byte. */
  function PrivkeyTemplate(keyspec: byte, isYubikey: bool, bytesE: seq<byte>,
                           bytesP: seq<byte>, bytesQ: seq<byte>): (t: seq<byte>)
    ensures |t| == 22 + |TemplateKeyData(isYubikey, bytesE, bytesP, bytesQ)|
  {
    var keyTemplate := [0x91, if isYubikey then 0x03 else 0x04]
                       + [0x92, 0x81, 0x80] + [0x93, 0x81, 0x80];
    var exthdr := [keyspec, 0x00] + [0x7F, 0x48] + [0x08] + keyTemplate;
    var suffix := [0x5F, 0x48] + [0x82, 0x01] + [if isYubikey then 0x03 else 0x04];
    [0x4D] + [0x82, 0x01] + [if isYubikey then 0x15 else 0x16]
      + exthdr + suffix
      + (if isYubikey then [] else [0x00]) + bytesE
      + bytesP + bytesQ
  }

  /** The key data the 5F48 element carries. */
  function TemplateKeyData(isYubikey: bool, bytesE: seq<byte>, bytesP: seq<byte>,
                           bytesQ: seq<byte>): seq<byte> {
    (if isYubikey then [] else [0x00]) + bytesE + bytesP + bytesQ
  }

  /** The layout of the import template, field by field. */
  lemma PrivkeyTemplateLayout(keyspec: byte, isYubikey: bool, bytesE: seq<byte>,
                              bytesP: seq<byte>, bytesQ: seq<byte>)
    ensures var t := PrivkeyTemplate(keyspec, isYubikey, bytesE, bytesP, bytesQ);
      && |t| == 22 + |TemplateKeyData(isYubikey, bytesE, bytesP, bytesQ)|
      && t[0] == 0x4D && t[1] == 0x82
      && BytesToNat(t[2..4]) == (if isYubikey then 0x115 else 0x116)
      && t[4] == keyspec && t[5] == 0x00
      && t[6..8] == [0x7F, 0x48] && t[8] == 8
      && t[9] == 0x91 && t[10] == (if isYubikey then 3 else 4)
      && t[11..14] == [0x92, 0x81, 0x80] && t[14..17] == [0x93, 0x81, 0x80]
      && t[17..19] == [0x5F, 0x48] && t[19] == 0x82
      && BytesToNat(t[20..22]) == (if isYubikey then 0x103 else 0x104)
      && t[22..] == TemplateKeyData(isYubikey, bytesE, bytesP, bytesQ)
  {
    TemplateHeaderLayout(keyspec, isYubikey, bytesE, bytesP, bytesQ);
    TemplateDataLayout(keyspec, isYubikey, bytesE, bytesP, bytesQ);
  }

  lemma TemplateHeaderLayout(keyspec: byte, isYubikey: bool, bytesE: seq<byte>,
                             bytesP: seq<byte>, bytesQ: seq<byte>)
    ensures var t := PrivkeyTemplate(keyspec, isYubikey, bytesE, bytesP, bytesQ);
      && t[0] == 0x4D && t[1] == 0x82
      && BytesToNat(t[2..4]) == (if isYubikey then 0x115 else 0x116)
      && t[4] == keyspec && t[5] == 0x00
      && t[6..8] == [0x7F, 0x48] && t[8] == 8
      && t[9] == 0x91 && t[10] == (if isYubikey then 3 else 4)
      && t[11..14] == [0x92, 0x81, 0x80] && t[14..17] == [0x93, 0x81, 0x80]
      && t[17..19] == [0x5F, 0x48] && t[19] == 0x82
      && BytesToNat(t[20..22]) == (if isYubikey then 0x103 else 0x104)
  {
    TemplateLengthFields(keyspec, isYubikey, bytesE, bytesP, bytesQ);
    TemplateFixedBytes(keyspec, isYubikey, bytesE, bytesP, bytesQ);
  }

  lemma TemplateLengthFields(keyspec: byte, isYubikey: bool, bytesE: seq<byte>,
                             bytesP: seq<byte>, bytesQ: seq<byte>)
    ensures var t := PrivkeyTemplate(keyspec, isYubikey, bytesE, bytesP, bytesQ);
      && BytesToNat(t[2..4]) == (if isYubikey then 0x115 else 0x116)
      && BytesToNat(t[20..22]) == (if isYubikey then 0x103 else 0x104)
  {
    var t := PrivkeyTemplate(keyspec, isYubikey, bytesE, bytesP, bytesQ);
    var l: byte := if isYubikey then 0x15 else 0x16;
    var k: byte := if isYubikey then 0x03 else 0x04;
    assert t[2..4] == [0x01, l];
    TwoBytesValue(0x01, l);
    assert t[20..22] == [0x01, k];
    TwoBytesValue(0x01, k);
  }

  lemma TemplateFixedBytes(keyspec: byte, isYubikey: bool, bytesE: seq<byte>,
                           bytesP: seq<byte>, bytesQ: seq<byte>)
    ensures var t := PrivkeyTemplate(keyspec, isYubikey, bytesE, bytesP, bytesQ);
      && t[0] == 0x4D && t[1] == 0x82
      && t[4] == keyspec && t[5] == 0x00
      && t[6..8] == [0x7F, 0x48] && t[8] == 8
      && t[9] == 0x91 && t[10] == (if isYubikey then 3 else 4)
      && t[11..14] == [0x92, 0x81, 0x80] && t[14..17] == [0x93, 0x81, 0x80]
      && t[17..19] == [0x5F, 0x48] && t[19] == 0x82
  {
  }

  lemma TemplateDataLayout(keyspec: byte, isYubikey: bool, bytesE: seq<byte>,
                           bytesP: seq<byte>, bytesQ: seq<byte>)
    ensures PrivkeyTemplate(keyspec, isYubikey, bytesE, bytesP, bytesQ)[22..]
            == TemplateKeyData(isYubikey, bytesE, bytesP, bytesQ)
  {
  }

  /** Each length field of the template covers exactly what follows it
      when e, p and q together have 259 bytes (3 + 128 + 128 for a 2048-bit
      key with e = 65537), and only then; the 7F48 length always covers the
      8-byte key template. */
  lemma PrivkeyTemplateLengths(keyspec: byte, isYubikey: bool, bytesE: seq<byte>,
                               bytesP: seq<byte>, bytesQ: seq<byte>)
    ensures var t := PrivkeyTemplate(keyspec, isYubikey, bytesE, bytesP, bytesQ);
      && (BytesToNat(t[2..4]) == |t| - 4 <==> |bytesE| + |bytesP| + |bytesQ| == 259)
      && (BytesToNat(t[20..22]) == |t| - 22 <==> |bytesE| + |bytesP| + |bytesQ| == 259)
      && t[8] == |t[9..17]|
  {
    PrivkeyTemplateLayout(keyspec, isYubikey, bytesE, bytesP, bytesQ);
  }

  /** With |e| = 3 and |p| = |q| = 128 the sizes announced in the 7F48 key
      template are those of the stored e (with its zero byte, if any), p and
      q. */
  lemma PrivkeyTemplateSizes(keyspec: byte, isYubikey: bool, bytesE: seq<byte>,
                             bytesP: seq<byte>, bytesQ: seq<byte>)
    requires |bytesE| == 3 && |bytesP| == 128 && |bytesQ| == 128
    ensures var t := PrivkeyTemplate(keyspec, isYubikey, bytesE, bytesP, bytesQ);
      && t[10] == |TemplateKeyData(isYubikey, bytesE, [], [])|
      && t[13] == |bytesP| && t[16] == |bytesQ|
  {
    PrivkeyTemplateLayout(keyspec, isYubikey, bytesE, bytesP, bytesQ);
  }

  /** A PK_Crypto object after __init__. */
  datatype PKCrypto = PKCrypto(
    keyno: int,
    timestamp: seq<byte>,
    bytesN: seq<byte>,
    bytesE: seq<byte>,
    n: nat,
    e: nat,
    priv: Option<PrivatePart>,
    fpr: Digest20)
  {
    /** pk_from_pk_info: the modulus bytes pk_info[9:265]. */
    static function PkFromPkInfo(pkInfo: seq<byte>): (r: seq<byte>)
      ensures |pkInfo| >= 265 ==> |r| == 256 && r == pkInfo[9..265]
      ensures 9 <= |pkInfo| ==> |r| == (if |pkInfo| >= 265 then 256 else |pkInfo| - 9)
      ensures 9 <= |pkInfo| ==> r == pkInfo[9..9 + |r|]
      ensures |pkInfo| <= 9 ==> r == []
    {
      Slice(pkInfo, 9, 9 + 256)
    }

    /** compute_digestinfo: the DER DigestInfo of the message's SHA-256. */
    static function ComputeDigestInfo(sha256: Sha256, msg: seq<byte>): (r: seq<byte>)
      ensures |r| == 51
      ensures r[..19] == DigestInfoPrefix && r[19..] == sha256(msg)
      ensures r[0] == 0x30 && r[1] == |r| - 2
      ensures r[2] == 0x30 && r[3] == 13 && r[4] == 0x06 && r[5] == 9
      ensures r[17] == 0x04 && r[18] == |r| - 19
    {
      DigestInfoPrefix + sha256(msg)
    }

    /** __init__ for a given keyno. The public branch is taken when pk_info
        is a non-empty blob (an empty one is false in Python, like None). */
    static function New(sha1: Sha1, keyno: int, now: int, pkInfo: seq<byte>,
                        data: Option<KeyData>): (r: Result<PKCrypto, Error>)
      ensures r.Success? <==>
        && 0 <= now < 0x1_0000_0000
        && (|pkInfo| > 0 || (data.Some? && BytesToNat(data.value.bytesN)
              == BytesToNat(data.value.bytesP) * BytesToNat(data.value.bytesQ)))
      ensures r == Failure(WrongKey) <==>
        && 0 <= now < 0x1_0000_0000 && |pkInfo| == 0 && data.Some?
        && BytesToNat(data.value.bytesN)
             != BytesToNat(data.value.bytesP) * BytesToNat(data.value.bytesQ)
      ensures r.Success? ==> r.value.Valid(sha1) && r.value.keyno == keyno
      ensures r.Success? ==> PackU32(now) == Some(r.value.timestamp)
      ensures r.Success? && |pkInfo| > 0 ==>
        && r.value.priv.None?
        && r.value.bytesN == PkFromPkInfo(pkInfo)
        && r.value.bytesE == SliceFrom(pkInfo, 267)
      ensures r.Success? && |pkInfo| == 0 ==>
        && r.value.priv.Some?
        && r.value.bytesE == data.value.bytesE && r.value.bytesN == data.value.bytesN
        && r.value.priv.value.bytesP == data.value.bytesP
        && r.value.priv.value.bytesQ == data.value.bytesQ
    {
      match PackU32(now)
      case None => Failure(TimestampRange)
      case Some(timestamp) =>
        if |pkInfo| > 0 then
          var bytesN := Slice(pkInfo, 9, 9 + 256);
          var bytesE := SliceFrom(pkInfo, 9 + 256 + 2);
          var k := PKCrypto(keyno, timestamp, bytesN, bytesE,
                            BytesToNat(bytesN), BytesToNat(bytesE), None, seq(20, _ => 0));
          Success(k.(fpr := k.CalcFpr(sha1)))
        else if data.None? then Failure(MissingKeyData)
        else
          var KeyData(bytesE, bytesN, bytesP, bytesQ) := data.value;
          var e, n, p, q := BytesToNat(bytesE), BytesToNat(bytesN), BytesToNat(bytesP), BytesToNat(bytesQ);
          if n != p * q then Failure(WrongKey)
          else
            var k := PKCrypto(keyno, timestamp, bytesN, bytesE, n, e,
                              Some(PrivatePart(bytesP, bytesQ, p, q)), seq(20, _ => 0));
            Success(k.(fpr := k.CalcFpr(sha1)))
    }

    /** What __init__ establishes: the integers are the values of the byte
        strings, n = p * q when the factors are known, and fpr is the
        fingerprint of the stored public key. */
    predicate Valid(sha1: Sha1) {
      Consistent() && fpr == CalcFpr(sha1)
    }

    /** The part of Valid that does not involve the hash. */
    predicate Consistent() {
      && |timestamp| == 4
      && n == BytesToNat(bytesN) && e == BytesToNat(bytesE)
      && (priv.Some? ==>
            && priv.value.p == BytesToNat(priv.value.bytesP)
            && priv.value.q == BytesToNat(priv.value.bytesQ)
            && n == priv.value.p * priv.value.q)
    }

    /** calc_fpr: the SHA-1 of the fingerprint message. */
    function CalcFpr(sha1: Sha1): Digest20 {
      sha1(FprMessage(timestamp, bytesN, bytesE))
    }

    function GetFpr(): Digest20 {
      fpr
    }

    function GetTimestamp(): seq<byte> {
      timestamp
    }

    function GetPk(): seq<byte> {
      bytesN
    }

    /** build_privkey_template: slot keyno + 1; raises on a public-only key. */
    function BuildPrivkeyTemplate(isYubikey: bool): (r: Result<seq<byte>, Error>)
      ensures r.Success? <==> priv.Some?
      ensures r.Success? ==>
        && |r.value| >= 22
        && r.value[4] == KeySpec(keyno + 1)
        && r.value[10] == (if isYubikey then 3 else 4)
        && r.value[22..] == TemplateKeyData(isYubikey, bytesE, priv.value.bytesP, priv.value.bytesQ)
    {
      if priv.None? then Failure(MissingPrivateKey)
      else
        var spec := KeySpec(keyno + 1);
        PrivkeyTemplateLayout(spec, isYubikey, bytesE, priv.value.bytesP, priv.value.bytesQ);
        Success(PrivkeyTemplate(spec, isYubikey, bytesE, priv.value.bytesP, priv.value.bytesQ))
    }

    /** Lines 120-126 of compute_signature: d = e^-1 mod (p-1)(q-1), its
        reductions dp and dq, and qp = q^-1 mod p. */
    function CrtParams(): (r: Result<CrtKey, Error>)
      ensures r.Success? <==> && priv.Some?
                              && ModInv(e, (priv.value.p - 1) * (priv.value.q - 1)).Success?
                              && ModInv(priv.value.q, priv.value.p).Success?
      ensures r.Success? ==> CrtKeyValid(e, priv.value.p, priv.value.q, r.value)
    {
      if priv.None? then Failure(MissingPrivateKey)
      else
        var p, q := priv.value.p, priv.value.q;
        var p1, q1 := p - 1, q - 1;
        var h := p1 * q1;
        match ModInv(e, h)
        case Failure(err) => Failure(err)
        case Success(d) =>
          NonZeroProduct(p1, q1);
          var dp, dq := PyMod(d, p1), PyMod(d, q1);
          match ModInv(q, p)
          case Failure(err) => Failure(err)
          case Success(qp) =>
            CrtModuli(e, p, q);
            var c := CrtKey(d, dp, dq, qp);
            CrtKeyFacts(e, p, q, c);
            Success(c)
    }

    /** compute_signature: CRT signing with Garner's recombination, returned
        as the shortest big-endian byte string. */
    function ComputeSignature(digestInfo: seq<byte>): (r: Result<seq<byte>, Error>)
      ensures r.Success? <==> CrtParams().Success?
      ensures r.Success? ==>
        var p, q, c := priv.value.p, priv.value.q, CrtParams().value;
        var s, m := BytesToNat(r.value), PadForSign(digestInfo);
        && s < p * q
        && s % p == ModPow(m, c.dp, p)
        && s % q == ModPow(m, c.dq, q)
        && |r.value| == ByteLength(s)
        && (|r.value| > 0 ==> r.value[0] != 0)
    {
      match CrtParams()
      case Failure(err) => Failure(err)
      case Success(c) =>
        var p, q := priv.value.p, priv.value.q;
        var input := PadForSign(digestInfo);
        var t1 := ModPow(input, c.dp, p);
        var t2 := ModPow(input, c.dq, q);
        var t := ((t1 - t2) * c.qp) % p;
        CrtRecombine(p, q, c.qp, t1, t2);
        var sig := t2 + t * q;
        Success(MinimalBytes(sig))
    }

    /** verify_signature: pow(sig, e, n) compared with the padded DigestInfo;
        a mismatch is the answer false, not an exception. */
    function VerifySignature(digestInfo: seq<byte>, sigBytes: seq<byte>): (r: Result<bool, Error>)
      ensures r.Success? <==> |sigBytes| > 0 && n > 0
      ensures r.Success? ==>
        var s := ModPow(BytesToNat(sigBytes), e, n);
        (r.value <==> s < Pow256(205 + |digestInfo|)
                      && NatToBytes(205 + |digestInfo|, s) == SignBlock(digestInfo))
      ensures r.Success? && |digestInfo| == 51 ==>
        (r.value <==> EmsaDigestInfo(ModPow(BytesToNat(sigBytes), e, n)) == Some(digestInfo))
    {
      if |sigBytes| == 0 then Failure(EmptySignature)
      else if n == 0 then Failure(ZeroModulus)
      else
        var m := ModPow(BytesToNat(sigBytes), e, n);
        PadForSignInverse(m, digestInfo);
        Success(m == PadForSign(digestInfo))
    }

    /** encrypt: the plaintext and 00 || the 256-byte pow(m, e, n). */
    function Encrypt(plaintext: seq<byte>, rnd: seq<byte>): (r: Result<(seq<byte>, seq<byte>), Error>)
      requires |plaintext| <= 253 ==> |rnd| == 253 - |plaintext|
      ensures r.Success? <==>
        && |plaintext| <= 253 && n > 0
        && ModPow(PadForCrypt(plaintext, rnd).value, e, n) < Pow256(256)
      ensures r.Success? ==>
        var c := ModPow(PadForCrypt(plaintext, rnd).value, e, n);
        && r.value.0 == plaintext
        && |r.value.1| == 257 && r.value.1[0] == 0x00
        && BytesToNat(r.value.1[1..]) == c && BytesToNat(r.value.1) == c
    {
      match PadForCrypt(plaintext, rnd)
      case Failure(err) => Failure(err)
      case Success(m) =>
        if n == 0 then Failure(ZeroModulus)
        else
          var c := ModPow(m, e, n);
          match CiphertextField(c)
          case Failure(err) => Failure(err)
          case Success(ct) => Success((plaintext, ct))
    }
  }

  /** The ciphertext field of encrypt: a zero byte, then
      integer_to_bytes_256 of the value. */
  function CiphertextField(c: int): (r: Result<seq<byte>, Error>)
    ensures r.Success? <==> 0 <= c < Pow256(256)
    ensures r.Success? ==>
      && |r.value| == 257 && r.value[0] == 0x00
      && BytesToNat(r.value[1..]) == c && BytesToNat(r.value) == c
  {
    match IntegerToBytes256(c)
    case Failure(err) => Failure(err)
    case Success(b) =>
      LeadingZero(b);
      assert ([0x00] + b)[1..] == b;
      Success([0x00] + b)
  }

  /** The facts RSASP1 needs of the CRT key (section 5.2.1 of RFC 8017):
      d inverts e modulo (p-1)(q-1), dp and dq are its reductions, and qp
      inverts q modulo p. */
  predicate CrtKeyValid(e: nat, p: nat, q: nat, c: CrtKey) {
    var h := (p - 1) * (q - 1);
    && p >= 2 && q >= 2 && h > 0
    && 0 <= c.d < h && (e * c.d) % h == 1 % h
    && c.dp == c.d % (p - 1) && c.dq == c.d % (q - 1)
    && c.qp < p && (q * c.qp) % p == 1
  }

  lemma CrtKeyFacts(e: nat, p: nat, q: nat, c: CrtKey)
    requires p >= 2 && q >= 2 && (p - 1) * (q - 1) > 0
    requires ModInv(e, (p - 1) * (q - 1)) == Success(c.d)
    requires ModInv(q, p) == Success(c.qp)
    requires c.dp == PyMod(c.d, p - 1) && c.dq == PyMod(c.d, q - 1)
    ensures CrtKeyValid(e, p, q, c)
  {
    var h := (p - 1) * (q - 1);
    assert 0 <= c.d < h && (e * c.d) % h == 1 % h;
    assert c.dp == c.d % (p - 1) && c.dq == c.d % (q - 1);
    assert c.qp < p && (q * c.qp) % p == 1 % p;
    ModUnique(1, p, 0, 1);
  }

  lemma NonZeroProduct(a: int, b: int)
    requires a * b != 0
    ensures a != 0 && b != 0
  {
  }

  /** When both inverses of compute_signature exist, p and q are at least
      2, so `pow` is never reached with a degenerate modulus: an inverse
      modulo (p-1)(q-1) needs a non-zero modulus, and one of q modulo p
      needs p > 0 and q > 0 (0 is invertible only modulo 1). */
  lemma CrtModuli(e: nat, p: nat, q: nat)
    requires ModInv(e, (p - 1) * (q - 1)).Success? && ModInv(q, p).Success?
    ensures p >= 2 && q >= 2 && (p - 1) * (q - 1) > 0
  {
    NonZeroProduct(p - 1, q - 1);
    InverseOfZero(p);
    PositiveModuli(p, q);
  }

  lemma PositiveModuli(p: nat, q: nat)
    requires (p - 1) * (q - 1) != 0 && p != 0 && q != 0
    ensures p >= 2 && q >= 2 && (p - 1) * (q - 1) > 0
  {
    NonZeroProduct(p - 1, q - 1);
    PositiveProduct(p - 1, q - 1);
  }

  /** 0 has an inverse only modulo 1: egcd(0, p) is (p, 0, 1). */
  lemma InverseOfZero(p: nat)
    ensures ModInv(0, p).Success? ==> p == 1
  {
    assert Egcd(0, p) == Bezout(p, 0, 1);
  }

  lemma PositiveProduct(a: int, b: int)
    requires a > 0 && b > 0
    ensures a * b > 0
  {
  }

  /** The accessors of a freshly built key return what __init__ stored: the
      packed creation time, the modulus bytes of the chosen branch, and the
      SHA-1 of the fingerprint message over exactly those. */
  lemma NewAccessors(sha1: Sha1, keyno: int, now: int, pkInfo: seq<byte>, data: Option<KeyData>)
    requires PKCrypto.New(sha1, keyno, now, pkInfo, data).Success?
    ensures var k := PKCrypto.New(sha1, keyno, now, pkInfo, data).value;
      && PackU32(now) == Some(k.GetTimestamp())
      && k.GetPk() == (if |pkInfo| > 0 then PKCrypto.PkFromPkInfo(pkInfo) else data.value.bytesN)
      && k.GetFpr() == sha1(FprMessage(k.GetTimestamp(), k.GetPk(), k.bytesE))
  {
  }

  /** A signature is never longer than the modulus: the shortest encoding
      of a value below n = p * q fits in |bytes_n| bytes. */
  lemma SignatureFitsModulus(k: PKCrypto, digestInfo: seq<byte>)
    requires k.Consistent() && k.ComputeSignature(digestInfo).Success?
    ensures |k.ComputeSignature(digestInfo).value| <= |k.bytesN|
  {
    var sig := k.ComputeSignature(digestInfo).value;
    var s := BytesToNat(sig);
    assert s < k.priv.value.p * k.priv.value.q;
    assert s < k.n;
    ByteLengthAtMost(s, |k.bytesN|);
  }

  /** For a key whose modulus has at most 256 bytes, encryption fails only
      for an over-long message or a zero modulus: pow(m, e, n) < n always
      fits the 256-byte field. */
  lemma EncryptSucceeds(k: PKCrypto, plaintext: seq<byte>, rnd: seq<byte>)
    requires k.Consistent() && |k.bytesN| <= 256 && k.n > 0
    requires |plaintext| <= 253 && |rnd| == 253 - |plaintext|
    ensures k.Encrypt(plaintext, rnd).Success?
  {
    Pow256Monotone(|k.bytesN|, 256);
  }

  /** The import template and the delete template of a key name the same
      slot. */
  lemma SlotTagsAgree(k: PKCrypto, isYubikey: bool)
    requires k.BuildPrivkeyTemplate(isYubikey).Success?
    ensures k.BuildPrivkeyTemplate(isYubikey).value[4]
            == BuildPrivkeyTemplateForRemove(k.keyno + 1)[2]
  {
  }

  /** The signing input built from a message decodes back to its DigestInfo,
      which is why the 202-byte padding suits exactly the SHA-256 DigestInfo. */
  lemma DigestInfoRoundTrip(sha256: Sha256, msg: seq<byte>)
    ensures var di := PKCrypto.ComputeDigestInfo(sha256, msg);
      EmsaDigestInfo(PadForSign(di)) == Some(di)
  {
    var di := PKCrypto.ComputeDigestInfo(sha256, msg);
    PadForSignInverse(PadForSign(di), di);
  }
}
