/**
  Stamps and tick records (p2p/core-engine/src/foretias/tick.rs): the bytes that get signed, and the stateless
  verification of stamps and of pairs of consecutive ticks.
 */
module Records {
  import opened Encoding
  import opened Prelude

  type Hash = h: bytes | |h| == 32 witness seq(32, _ => 0)
  type Nonce = n: bytes | |n| == 16 witness seq(16, _ => 0)
  type Tbid = t: bytes | |t| == 96 witness seq(96, _ => 0)

  datatype ForetisRecord = ForetisRecord(
    chrononNumber: u64, contentHash: Hash, tbid: Tbid, echo: bytes, tbn: bytes, referenceTime: bytes)

  /** An attestation by another time family; only its identity matters here. */
  datatype Attestation = Attestation(id: nat)

  datatype ChrononRecord = ChrononRecord(
    chrononNumber: u64, publicKey: bytes, signatureAlgorithm: string, forward: bytes, backward: bytes,
    nonce: Nonce, stampCount: u64, external: seq<Attestation>, tbVersion: nat, tbid: Tbid)

  /** The outcome of a check that may itself fail. */
  datatype Checked = Valid | Invalid | Error

  /** The primitives: signing with the private half of a public key, and verification of anything. */
  datatype Crypto = Crypto(
    sign: (Key, bytes) -> bytes,
    verify: (bytes, string, bytes, bytes) -> Checked,
    sha256: bytes -> Hash,
    tbidSign: (Tbid, bytes) -> bytes,
    tbidVerify: (Tbid, bytes, bytes) -> Checked)

  const ED25519 := "Ed25519"

  /** Honest signatures verify. Nothing is said about what else does. */
  ghost predicate Correct(c: Crypto) {
    && (forall k: Key, m: bytes :: |c.sign(k, m)| == 64 && c.verify(k, ED25519, m, c.sign(k, m)) == Valid)
    && (forall t: Tbid, m: bytes :: c.tbidSign(t, m) != [] && c.tbidVerify(t, m, c.tbidSign(t, m)) == Valid)
  }

  // ---------------------------------------------------------------- signed bytes

  /** The postcard serialization of a stamp. Byte arrays travel as base64 text. */
  function Postcard(f: ForetisRecord): bytes {
    Varint(f.chrononNumber)
    + (Text(Base64(URL_SAFE_NO_PAD, f.contentHash))
    + (Text(Base64(URL_SAFE_NO_PAD, f.tbid))
    + (Text(f.echo) + (Text(f.tbn) + (Text(f.referenceTime) + [])))))
  }

  /** Attestation of tick b by tick a, signed with both keys. */
  function PairBlob(tbid: bytes, aTick: u64, aKey: bytes, bTick: u64, bKey: bytes, stamps: u64, nonce: bytes): bytes {
    tbid + (U64(aTick) + (aKey + (U64(bTick) + (bKey + (U64(stamps) + nonce)))))
  }

  /** Attestation of the first tick, with the identity's signature inside. */
  function GenesisPairBlob(tbid: bytes, tick: u64, key: bytes, genesisSig: bytes, stamps: u64, nonce: bytes): bytes {
    tbid + (U64(tick) + (key + (U64(tick) + (key + (genesisSig + (U64(stamps) + nonce))))))
  }

  /** What the identity itself signs for the first tick. */
  function GenesisBlob(tbid: Tbid, tick: u64, key: bytes): bytes {
    tbid + (U64(tick) + key)
  }

  // ---------------------------------------------------------------- the bytes, field by field

  /** Where each field of a pair attestation stands. */
  lemma PairBlobLayout(tbid: Tbid, a: u64, aKey: Key, b: u64, bKey: Key, stamps: u64, nonce: Nonce)
    ensures var blob := PairBlob(Hex(tbid), a, aKey, b, bKey, stamps, nonce);
            && |blob| == 296 && blob[..192] == Hex(tbid)
            && NumberOf(blob[192..200]) == a && blob[200..232] == aKey
            && NumberOf(blob[232..240]) == b && blob[240..272] == bKey
            && NumberOf(blob[272..280]) == stamps && blob[280..] == nonce
  {
    hide Hex, U64, NumberOf;
    U64Number(a);
    U64Number(b);
    U64Number(stamps);
    var blob := PairBlob(Hex(tbid), a, aKey, b, bKey, stamps, nonce);
    assert blob[192..200] == U64(a) && blob[232..240] == U64(b) && blob[272..280] == U64(stamps);
  }

  /** The same for the attestation of the first tick, whose number and key appear twice. */
  lemma GenesisPairBlobLayout(tbid: Tbid, tick: u64, key: Key, sig: bytes, stamps: u64, nonce: Nonce)
    ensures var blob := GenesisPairBlob(Hex(tbid), tick, key, sig, stamps, nonce);
            && |blob| == 296 + |sig| && blob[..192] == Hex(tbid)
            && NumberOf(blob[192..200]) == tick && blob[200..232] == key
            && NumberOf(blob[232..240]) == tick && blob[240..272] == key
            && blob[272..272 + |sig|] == sig
            && NumberOf(blob[272 + |sig|..280 + |sig|]) == stamps && blob[280 + |sig|..] == nonce
  {
    hide Hex, U64, NumberOf;
    U64Number(tick);
    U64Number(stamps);
    var blob := GenesisPairBlob(Hex(tbid), tick, key, sig, stamps, nonce);
    assert blob[192..200] == U64(tick) && blob[232..240] == U64(tick) && blob[272 + |sig|..280 + |sig|] == U64(stamps);
  }

  /** The same for what the identity signs. */
  lemma GenesisBlobLayout(tbid: Tbid, tick: u64, key: bytes)
    ensures var blob := GenesisBlob(tbid, tick, key);
            |blob| == 104 + |key| && blob[..96] == tbid && NumberOf(blob[96..104]) == tick && blob[104..] == key
  {
    hide U64, NumberOf;
    U64Number(tick);
    assert GenesisBlob(tbid, tick, key)[96..104] == U64(tick);
  }

  /** Reads the fields of a stamp in their order. */
  function ReadStamp(s: bytes): Option<ForetisRecord> {
    var number := ReadVarint(s);
    if number.None? || number.value.0 > 0xFFFF_FFFF_FFFF_FFFF then None
    else
      var hash := ReadText(number.value.1);
      if hash.None? then None
      else
        var tbid := ReadText(hash.value.1);
        if tbid.None? then None
        else
          var echo := ReadText(tbid.value.1);
          if echo.None? then None
          else
            var tbn := ReadText(echo.value.1);
            if tbn.None? then None
            else
              var time := ReadText(tbn.value.1);
              var h, t := DecodeArray(hash.value.0, 32), DecodeArray(tbid.value.0, 96);
              if time.None? || time.value.1 != [] || h.None? || t.None? then None
              else Some(ForetisRecord(number.value.0, h.value, t.value, echo.value.0, tbn.value.0, time.value.0))
  }

  /** The bytes of a stamp read back as that stamp. */
  lemma PostcardRoundTrip(f: ForetisRecord)
    ensures ReadStamp(Postcard(f)) == Some(f)
  {
    hide Varint, Text, Base64, ReadVarint, ReadText, DecodeArray;
    var e := URL_SAFE_NO_PAD;
    var f5 := Text(f.referenceTime) + [];
    var f4 := Text(f.tbn) + f5;
    var f3 := Text(f.echo) + f4;
    var f2 := Text(Base64(e, f.tbid)) + f3;
    var f1 := Text(Base64(e, f.contentHash)) + f2;
    VarintRoundTrip(f.chrononNumber, f1);
    TextRoundTrip(Base64(e, f.contentHash), f2);
    TextRoundTrip(Base64(e, f.tbid), f3);
    TextRoundTrip(f.echo, f4);
    TextRoundTrip(f.tbn, f5);
    TextRoundTrip(f.referenceTime, []);
    DecodeArrayExactly(Base64(e, f.contentHash), 32, f.contentHash);
    DecodeArrayExactly(Base64(e, f.tbid), 96, f.tbid);
  }

  // ---------------------------------------------------------------- no two alike

  lemma PostcardInjective(f: ForetisRecord, g: ForetisRecord)
    requires Postcard(f) == Postcard(g)
    ensures f == g
  {
    hide Varint, Text, Base64;
    var e := URL_SAFE_NO_PAD;
    var f5, g5 := Text(f.referenceTime) + [], Text(g.referenceTime) + [];
    var f4, g4 := Text(f.tbn) + f5, Text(g.tbn) + g5;
    var f3, g3 := Text(f.echo) + f4, Text(g.echo) + g4;
    var f2, g2 := Text(Base64(e, f.tbid)) + f3, Text(Base64(e, g.tbid)) + g3;
    var f1, g1 := Text(Base64(e, f.contentHash)) + f2, Text(Base64(e, g.contentHash)) + g2;
    VarintPrefixFree(f.chrononNumber, g.chrononNumber, f1, g1);
    TextPrefixFree(Base64(e, f.contentHash), Base64(e, g.contentHash), f2, g2);
    Base64Injective(e, f.contentHash, g.contentHash);
    TextPrefixFree(Base64(e, f.tbid), Base64(e, g.tbid), f3, g3);
    Base64Injective(e, f.tbid, g.tbid);
    TextPrefixFree(f.echo, g.echo, f4, g4);
    TextPrefixFree(f.tbn, g.tbn, f5, g5);
    TextPrefixFree(f.referenceTime, g.referenceTime, [], []);
  }

  /** With 32-byte keys and a full hex identity every field of a pair attestation is fixed by its bytes. */
  lemma PairBlobInjective(t: bytes, a: u64, aKey: Key, b: u64, bKey: Key, n: u64, x: Nonce,
                          t': bytes, a': u64, aKey': Key, b': u64, bKey': Key, n': u64, x': Nonce)
    requires PairBlob(t, a, aKey, b, bKey, n, x) == PairBlob(t', a', aKey', b', bKey', n', x') && |t| == |t'|
    ensures t == t' && a == a' && aKey == aKey' && b == b' && bKey == bKey' && n == n' && x == x'
  {
    hide U64;
    var r5, r5' := U64(n) + x, U64(n') + x';
    var r4, r4' := bKey + r5, bKey' + r5';
    var r3, r3' := U64(b) + r4, U64(b') + r4';
    var r2, r2' := aKey + r3, aKey' + r3';
    var r1, r1' := U64(a) + r2, U64(a') + r2';
    SplitEqual(t, r1, t', r1');
    SplitEqual(U64(a), r2, U64(a'), r2');
    SplitEqual(aKey, r3, aKey', r3');
    SplitEqual(U64(b), r4, U64(b'), r4');
    SplitEqual(bKey, r5, bKey', r5');
    SplitEqual(U64(n), x, U64(n'), x');
    U64Injective(a, a');
    U64Injective(b, b');
    U64Injective(n, n');
  }

  lemma GenesisPairBlobInjective(t: bytes, a: u64, key: Key, sig: bytes, n: u64, x: Nonce,
                                 t': bytes, a': u64, key': Key, sig': bytes, n': u64, x': Nonce)
    requires GenesisPairBlob(t, a, key, sig, n, x) == GenesisPairBlob(t', a', key', sig', n', x') && |t| == |t'|
    ensures t == t' && a == a' && key == key' && sig == sig' && n == n' && x == x'
  {
    hide U64;
    var r5, r5' := U64(n) + x, U64(n') + x';
    var r4, r4' := sig + r5, sig' + r5';
    var r3, r3' := key + r4, key' + r4';
    var r2, r2' := U64(a) + r3, U64(a') + r3';
    var r1, r1' := key + r2, key' + r2';
    var r0, r0' := U64(a) + r1, U64(a') + r1';
    SplitEqual(t, r0, t', r0');
    SplitEqual(U64(a), r1, U64(a'), r1');
    SplitEqual(key, r2, key', r2');
    SplitEqual(U64(a), r3, U64(a'), r3');
    SplitEqual(key, r4, key', r4');
    SplitEqual(sig, r5, sig', r5');
    SplitEqual(U64(n), x, U64(n'), x');
    U64Injective(a, a');
    U64Injective(n, n');
  }

  /** The two kinds of attestation differ in length. */
  lemma PairBlobIsNotGenesis(t: bytes, a: u64, aKey: Key, b: u64, bKey: Key, n: u64, x: Nonce,
                             t': bytes, a': u64, key': Key, sig': bytes, n': u64, x': Nonce)
    requires |t| == |t'| && sig' != []
    ensures PairBlob(t, a, aKey, b, bKey, n, x) != GenesisPairBlob(t', a', key', sig', n', x')
  {
    hide U64;
    assert |PairBlob(t, a, aKey, b, bKey, n, x)| == |t| + 104;
    assert |GenesisPairBlob(t', a', key', sig', n', x')| == |t'| + 104 + |sig'|;
  }

  /** A stamp never has the bytes of anything that begins with two hex digits: its second byte is either part of the
      tick number with a high first byte, or the length 43 of an encoded hash, which is a plus sign. */
  lemma PostcardIsNotHexText(f: ForetisRecord, blob: bytes)
    requires |blob| >= 2 && IsHexDigit(blob[0]) && IsHexDigit(blob[1])
    ensures Postcard(f) != blob
  {
    var hash := Base64(URL_SAFE_NO_PAD, f.contentHash);
    assert |hash| == 43;
    if f.chrononNumber < 128 {
      assert Varint(f.chrononNumber) == [f.chrononNumber];
      assert Text(hash)[0] == 43;
      assert Postcard(f)[1] == 43;
    } else {
      assert Postcard(f)[0] >= 128;
    }
  }

  lemma BlobBeginsWithHex(tbid: Tbid, rest: bytes)
    ensures var blob := Hex(tbid) + rest;
            |blob| >= 192 && IsHexDigit(blob[0]) && IsHexDigit(blob[1])
  {
    assert (Hex(tbid) + rest)[0] == Hex(tbid)[0] && (Hex(tbid) + rest)[1] == Hex(tbid)[1];
  }

  /** The signed bytes of a stamp are never those of an attestation of either kind. */
  lemma StampIsNoAttestation(f: ForetisRecord, tbid: Tbid, a: u64, aKey: bytes, b: u64, bKey: bytes, sig: bytes,
                             stamps: u64, nonce: bytes)
    ensures Postcard(f) != PairBlob(Hex(tbid), a, aKey, b, bKey, stamps, nonce)
    ensures Postcard(f) != GenesisPairBlob(Hex(tbid), a, aKey, sig, stamps, nonce)
  {
    hide Postcard, Hex, U64;
    BlobBeginsWithHex(tbid, U64(a) + (aKey + (U64(b) + (bKey + (U64(stamps) + nonce)))));
    BlobBeginsWithHex(tbid, U64(a) + (aKey + (U64(a) + (aKey + (sig + (U64(stamps) + nonce))))));
    PostcardIsNotHexText(f, PairBlob(Hex(tbid), a, aKey, b, bKey, stamps, nonce));
    PostcardIsNotHexText(f, GenesisPairBlob(Hex(tbid), a, aKey, sig, stamps, nonce));
  }

  // ---------------------------------------------------------------- verification

  /** `at` are the records a calendar returns for the stamp's tick number, at most one. */
  function VerifyStamp(c: Crypto, f: ForetisRecord, sig: bytes, algorithm: string, content: bytes,
                       at: seq<ChrononRecord>): Checked {
    if c.sha256(content) != f.contentHash then Invalid
    else if at == [] then Error
    else c.verify(at[0].publicKey, algorithm, Postcard(f), sig)
  }

  const ED25519_SIG_LEN := 64

  function VerifyGenesis(c: Crypto, forwardGenesis: bytes, backwardGenesis: bytes,
                         prev: ChrononRecord, curr: ChrononRecord): Checked {
    if forwardGenesis != [] && forwardGenesis == backwardGenesis then
      c.tbidVerify(prev.tbid, GenesisBlob(prev.tbid, curr.chrononNumber, curr.publicKey), forwardGenesis)
    else if forwardGenesis == [] && curr.tbVersion == 0 then Valid
    else Invalid
  }

  function BothSigned(c: Crypto, prev: ChrononRecord, curr: ChrononRecord, blob: bytes,
                      forwardSig: bytes, backwardSig: bytes, genesis: Checked): Checked {
    var f := c.verify(prev.publicKey, curr.signatureAlgorithm, blob, forwardSig);
    var b := c.verify(curr.publicKey, curr.signatureAlgorithm, blob, backwardSig);
    if genesis == Error || f == Error || b == Error then Error
    else if f == Valid && b == Valid && genesis == Valid then Valid
    else Invalid
  }

  predicate IsGenesisPair(curr: ChrononRecord) {
    curr.chrononNumber == 1 && curr.tbVersion == 1
  }

  /** The bytes both keys must have signed for `curr` to follow `prev`. */
  function PairMessage(tbid: bytes, prev: ChrononRecord, curr: ChrononRecord): bytes {
    if IsGenesisPair(curr) && |curr.forward| >= ED25519_SIG_LEN then
      GenesisPairBlob(tbid, curr.chrononNumber, curr.publicKey, curr.forward[ED25519_SIG_LEN..], curr.stampCount, curr.nonce)
    else
      PairBlob(tbid, prev.chrononNumber, prev.publicKey, curr.chrononNumber, curr.publicKey, curr.stampCount, curr.nonce)
  }

  function VerifyPair(c: Crypto, tbid: bytes, prev: ChrononRecord, curr: ChrononRecord): Checked {
    if IsGenesisPair(curr) then
      if |curr.forward| < ED25519_SIG_LEN || |curr.backward| < ED25519_SIG_LEN then Error
      else
        BothSigned(c, prev, curr, PairMessage(tbid, prev, curr),
                   curr.forward[..ED25519_SIG_LEN], curr.backward[..ED25519_SIG_LEN],
                   VerifyGenesis(c, curr.forward[ED25519_SIG_LEN..], curr.backward[ED25519_SIG_LEN..], prev, curr))
    else
      BothSigned(c, prev, curr, PairMessage(tbid, prev, curr), curr.forward, curr.backward, Valid)
  }

  /** The verdict on an ordinary pair: both keys must have signed the same bytes, and an error in either check is an
      error of the pair. */
  lemma PairVerdicts(c: Crypto, tbid: bytes, prev: ChrononRecord, curr: ChrononRecord)
    requires !IsGenesisPair(curr)
    ensures var m := PairBlob(tbid, prev.chrononNumber, prev.publicKey, curr.chrononNumber, curr.publicKey,
                              curr.stampCount, curr.nonce);
            var theirs := c.verify(prev.publicKey, curr.signatureAlgorithm, m, curr.forward);
            var own := c.verify(curr.publicKey, curr.signatureAlgorithm, m, curr.backward);
            && (VerifyPair(c, tbid, prev, curr) == Valid <==> theirs == Valid && own == Valid)
            && (VerifyPair(c, tbid, prev, curr) == Error <==> theirs == Error || own == Error)
  {
    hide PairBlob;
  }

  /** The verdict on a first record: its two halves carry one and the same nonempty signature of the identity, over the
      record's own tick and key, behind the two signatures of the tick keys, which cover it. */
  lemma GenesisVerdict(c: Crypto, tbid: bytes, prev: ChrononRecord, curr: ChrononRecord)
    requires IsGenesisPair(curr)
    ensures |curr.forward| < 64 || |curr.backward| < 64 ==> VerifyPair(c, tbid, prev, curr) == Error
    ensures |curr.forward| >= 64 && |curr.backward| >= 64 ==>
              var identity := curr.forward[64..];
              var m := GenesisPairBlob(tbid, 1, curr.publicKey, identity, curr.stampCount, curr.nonce);
              (VerifyPair(c, tbid, prev, curr) == Valid
               <==> && identity != [] && curr.backward[64..] == identity
                    && c.tbidVerify(prev.tbid, GenesisBlob(prev.tbid, 1, curr.publicKey), identity) == Valid
                    && c.verify(prev.publicKey, curr.signatureAlgorithm, m, curr.forward[..64]) == Valid
                    && c.verify(curr.publicKey, curr.signatureAlgorithm, m, curr.backward[..64]) == Valid)
              && (VerifyPair(c, tbid, prev, curr) == Error
                  <==> || (identity != [] && curr.backward[64..] == identity
                           && c.tbidVerify(prev.tbid, GenesisBlob(prev.tbid, 1, curr.publicKey), identity) == Error)
                       || c.verify(prev.publicKey, curr.signatureAlgorithm, m, curr.forward[..64]) == Error
                       || c.verify(curr.publicKey, curr.signatureAlgorithm, m, curr.backward[..64]) == Error)
  {
    hide GenesisPairBlob, GenesisBlob;
  }

  /** The verdict on a stamp that comes with a wrong content, or whose tick has no record. */
  lemma StampVerdicts(c: Crypto, f: ForetisRecord, sig: bytes, algorithm: string, content: bytes, at: seq<ChrononRecord>)
    ensures c.sha256(content) != f.contentHash ==> VerifyStamp(c, f, sig, algorithm, content, at) == Invalid
    ensures c.sha256(content) == f.contentHash && at == [] ==> VerifyStamp(c, f, sig, algorithm, content, at) == Error
    ensures c.sha256(content) == f.contentHash && at != [] ==>
              VerifyStamp(c, f, sig, algorithm, content, at) == c.verify(at[0].publicKey, algorithm, Postcard(f), sig)
  {
    hide Postcard;
  }
}
