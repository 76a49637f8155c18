/** What two sessions can conclude about each other over a network that alters, replays, mixes and drops. */
module NoiseProofs {
  import opened Prelude
  import opened NoiseSpec

  // ---------------------------------------------------------------- histories of one session

  /** Any call a session can receive, with whatever the network and the caller put into it. */
  datatype Call =
    | Handshake(input: Option<Frame>, ephemeral: nat, room: Option<nat>)
    | Send(plain: Term, plainLength: nat, space: nat)
    | Receive(cipher: Term, cipherLength: nat)

  function Next(s: State, call: Call): State {
    match call
    case Handshake(input, ephemeral, room) => HandshakeStep(s, input, ephemeral, room).state
    case Send(plain, length, space) => SendStep(s, plain, length, space).0
    case Receive(cipher, length) => RecvStep(s, cipher, length).0
  }

  /** The ciphertext a call hands to the network, if any. */
  function Emits(s: State, call: Call): Option<Term> {
    match call
    case Handshake(input, ephemeral, room) =>
      var r := HandshakeStep(s, input, ephemeral, room);
      if r.code == Ok && r.output.cipher != Empty then Some(r.output.cipher) else None
    case Send(plain, length, space) =>
      var r := SendStep(s, plain, length, space);
      if r.1 == Ok then Some(r.2) else None
    case Receive(_, _) => None
  }

  function After(s: State, calls: seq<Call>): State {
    if calls == [] then s else Next(After(s, calls[..|calls| - 1]), calls[|calls| - 1])
  }

  function Emitted(s: State, calls: seq<Call>): seq<Term> {
    if calls == [] then []
    else
      var prefix := calls[..|calls| - 1];
      var out := Emits(After(s, prefix), calls[|calls| - 1]);
      Emitted(s, prefix) + if out.Some? then [out.value] else []
  }

  ghost predicate Reachable(s: State, isInitiator: bool, staticId: nat) {
    exists theirs: Term, calls: seq<Call> :: s == After(Fresh(isInitiator, staticId, theirs), calls)
  }

  // ---------------------------------------------------------------- what a session knows

  /** Message 2 as one side saw it. */
  datatype Second = Second(ephemeral: nat, cipher: Term, nonce: nat, rest: Option<Term>)

  /** Everything an initiator has derived once it accepted message 2. */
  ghost predicate HeardTwo(s: State, m: Second) {
    var h1 := MixHash(MixHash(Protocol, Public(m.ephemeral)), s.remoteEphemeral);
    var h2 := MixHash(h1, m.cipher);
    var ee, es := X25519(Scalar(m.ephemeral), s.remoteEphemeral), X25519(Scalar(m.ephemeral), s.remoteStatic);
    && s.localEphemeral == Public(m.ephemeral)
    && ee.Some? && es.Some?
    && var k1 := MixKey(Protocol, ee.value);
    && var k2 := MixKey(k1.first, es.value);
    && m.cipher == Sealed(k1.second, m.nonce, h1, s.remoteStatic)
    && s.sendKey == k2.second && s.ck == k2.first
    && s.hash == (if m.rest.None? then h2 else MixHash(h2, m.rest.value))
    && s.recvNonce == m.nonce + (if m.rest.None? then 1 else 2)
  }

  /** Everything a responder has derived once it wrote message 2. */
  ghost predicate SpokeTwo(s: State, m: Second) {
    var h1 := MixHash(MixHash(Protocol, s.remoteEphemeral), Public(m.ephemeral));
    var ee, es := X25519(Scalar(m.ephemeral), s.remoteEphemeral), X25519(s.localStatic, s.remoteEphemeral);
    && s.localEphemeral == Public(m.ephemeral) && s.recvKey == Scalar(m.ephemeral)
    && ee.Some? && es.Some?
    && var k1 := MixKey(Protocol, ee.value);
    && var k2 := MixKey(k1.first, es.value);
    && m.cipher == Sealed(k1.second, m.nonce, h1, s.localStaticPub)
    && s.sendKey == k2.second && s.ck == k2.first
    && s.hash == MixHash(h1, m.cipher)
    && s.sendNonce == m.nonce + 1
  }

  ghost predicate HasHeardTwo(s: State) {
    exists m: Second :: HeardTwo(s, m)
  }

  ghost predicate HasSpokenTwo(s: State) {
    exists m: Second :: SpokeTwo(s, m)
  }

  ghost predicate Knowledge(s: State, isInitiator: bool, staticId: nat) {
    && s.isInitiator == isInitiator
    && s.localStatic == Scalar(staticId) && s.localStaticPub == Public(staticId)
    && s.step <= 3 && (s.complete <==> s.step == 3)
    && (s.step < 2 ==> s.ck == Protocol)
    && (s.step == 0 ==> s.hash == Protocol)
    && (s.step == 1 ==>
          if isInitiator then
            s.localEphemeral.Public? && s.sendKey == Scalar(s.localEphemeral.id)
            && s.hash == MixHash(Protocol, s.localEphemeral)
          else s.hash == MixHash(Protocol, s.remoteEphemeral))
    && (s.step == 2 ==> if isInitiator then HasHeardTwo(s) else HasSpokenTwo(s))
    && (s.step == 3 ==>
          if isInitiator then s.sendKey == Split(s.ck).first && s.recvKey == Split(s.ck).second
          else s.sendKey == Split(s.ck).second && s.recvKey == Split(s.ck).first)
  }

  lemma ReadTwoKnowledge(s: State, input: Frame, staticId: nat)
    requires Knowledge(s, true, staticId) && s.step == 1
    ensures Knowledge(ReadTwo(s, input).state, true, staticId)
  {
    var r := ReadTwo(s, input);
    if r.code == Ok {
      var m := Second(s.localEphemeral.id, input.cipher, s.recvNonce, if input.length > 80 then Some(input.rest) else None);
      assert HeardTwo(r.state, m);
    }
  }

  lemma WriteTwoKnowledge(s: State, ephemeral: nat, room: nat, staticId: nat)
    requires Knowledge(s, false, staticId) && s.step == 1
    ensures Knowledge(WriteTwo(s, ephemeral, room).state, false, staticId)
  {
    var r := WriteTwo(s, ephemeral, room);
    if r.code == Ok {
      assert SpokeTwo(r.state, Second(ephemeral, r.output.cipher, s.sendNonce, None));
    }
  }

  lemma WriteThreeKnowledge(s: State, room: nat, staticId: nat)
    requires Knowledge(s, true, staticId) && s.step == 2
    ensures Knowledge(WriteThree(s, room).state, true, staticId)
  {
    hide X25519, MixKey, Split;
    var r := WriteThree(s, room);
    var m: Second :| HeardTwo(s, m);
    if r.code != Ok {
      assert HeardTwo(r.state, m);
    }
  }

  lemma ReadThreeKnowledge(s: State, input: Frame, staticId: nat)
    requires Knowledge(s, false, staticId) && s.step == 2
    ensures Knowledge(ReadThree(s, input).state, false, staticId)
  {
    hide X25519, MixKey, Split;
    var r := ReadThree(s, input);
    var m: Second :| SpokeTwo(s, m);
    if r.code != Ok {
      assert SpokeTwo(r.state, m);
    }
  }

  lemma NextKnowledge(s: State, call: Call, isInitiator: bool, staticId: nat)
    requires Knowledge(s, isInitiator, staticId)
    ensures Knowledge(Next(s, call), isInitiator, staticId)
  {
    hide X25519, MixKey, Split, ReadTwo, WriteTwo, WriteThree, ReadThree, Open, Seal, HeardTwo, SpokeTwo;
    match call
    case Handshake(input, ephemeral, room) =>
      var space := if room.Some? then room.value else 0;
      var frame := if input.Some? then input.value else NO_OUTPUT;
      if !s.complete && s.step == 1 {
        if isInitiator {
          ReadTwoKnowledge(s, frame, staticId);
        } else {
          WriteTwoKnowledge(s, ephemeral, space, staticId);
        }
      } else if !s.complete && s.step == 2 {
        if isInitiator {
          WriteThreeKnowledge(s, space, staticId);
        } else {
          ReadThreeKnowledge(s, frame, staticId);
        }
      }
    case Send(plain, length, space) =>
    case Receive(cipher, length) =>
  }

  /** Whatever calls a session received, it knows what its step says. */
  lemma {:induction false} AfterKnowledge(isInitiator: bool, staticId: nat, theirs: Term, calls: seq<Call>)
    ensures Knowledge(After(Fresh(isInitiator, staticId, theirs), calls), isInitiator, staticId)
  {
    hide Next, Split;
    if calls != [] {
      AfterKnowledge(isInitiator, staticId, theirs, calls[..|calls| - 1]);
      NextKnowledge(After(Fresh(isInitiator, staticId, theirs), calls[..|calls| - 1]), calls[|calls| - 1],
                    isInitiator, staticId);
    }
  }

  lemma ReachableKnowledge(s: State, isInitiator: bool, staticId: nat)
    requires Reachable(s, isInitiator, staticId)
    ensures Knowledge(s, isInitiator, staticId)
  {
    var theirs: Term, calls: seq<Call> :| s == After(Fresh(isInitiator, staticId, theirs), calls);
    AfterKnowledge(isInitiator, staticId, theirs, calls);
  }

  // ---------------------------------------------------------------- matching transcripts

  /** Two sessions that hold the same keys, crosswise, and name each other. */
  ghost predicate Matched(i: State, r: State) {
    && i.complete && r.complete
    && i.ck == r.ck && i.sendKey == r.recvKey && i.recvKey == r.sendKey && i.sendKey != i.recvKey
    && i.remoteStatic == r.localStaticPub && r.remoteStatic == i.localStaticPub
    && i.remoteEphemeral == r.localEphemeral && r.remoteEphemeral == i.localEphemeral
  }

  lemma HashPathsMeet(e: Term, re: Term, c: Term, rest: Option<Term>, re': Term, e': Term, c': Term)
    requires (var h := MixHash(MixHash(MixHash(Protocol, e), re), c); if rest.None? then h else MixHash(h, rest.value))
             == MixHash(MixHash(MixHash(Protocol, re'), e'), c')
    ensures rest.None? && e == re' && re == e' && c == c'
  {
  }

  lemma MixKeyInjective(ck: Term, dh: Term, ck': Term, dh': Term)
    requires MixKey(ck, dh).second == MixKey(ck', dh').second
    ensures ck == ck' && dh == dh'
  {
  }

  lemma SplitKeysDiffer(ck: Term)
    ensures Split(ck).first != Split(ck).second
  {
  }

  /** What equal message-2 knowledge on both sides amounts to. */
  lemma SameSecondMessage(i: State, r: State, mi: Second, mr: Second)
    requires HeardTwo(i, mi) && SpokeTwo(r, mr) && i.hash == r.hash && i.sendKey == r.sendKey
    ensures i.ck == r.ck && i.remoteStatic == r.localStaticPub && i.recvNonce == r.sendNonce
    ensures i.remoteEphemeral == r.localEphemeral && r.remoteEphemeral == i.localEphemeral
    ensures r.recvKey == Scalar(mr.ephemeral) && r.localEphemeral == Public(mr.ephemeral)
  {
    hide X25519, MixKey;
    HashPathsMeet(Public(mi.ephemeral), i.remoteEphemeral, mi.cipher, mi.rest,
                  r.remoteEphemeral, Public(mr.ephemeral), mr.cipher);
    var ei, er := X25519(Scalar(mi.ephemeral), i.remoteEphemeral), X25519(Scalar(mr.ephemeral), r.remoteEphemeral);
    var si, sr := X25519(Scalar(mi.ephemeral), i.remoteStatic), X25519(r.localStatic, r.remoteEphemeral);
    MixKeyInjective(MixKey(Protocol, ei.value).first, si.value, MixKey(Protocol, er.value).first, sr.value);
  }

  /** From the same state after message 2, message 3 takes both ends to the same place, but for what follows it. */
  lemma FinishTogether(i: State, room: nat, r: State, frame: Frame, e: nat)
    requires i.step == 2 && WriteThree(i, room).code == Ok && ReadThree(r, frame).code == Ok
    requires frame.cipher == WriteThree(i, room).output.cipher
    requires i.ck == r.ck && i.remoteStatic == r.localStaticPub && i.recvNonce == r.sendNonce
    requires i.remoteEphemeral == r.localEphemeral && r.remoteEphemeral == i.localEphemeral
    requires r.recvKey == Scalar(e) && r.localEphemeral == Public(e)
    requires i.localStatic.Scalar? && i.localStaticPub == Public(i.localStatic.id)
    ensures var i', r' := WriteThree(i, room).state, ReadThree(r, frame).state;
            && Matched(i', r')
            && i'.recvNonce == r'.sendNonce
            && (i'.hash == r'.hash <==> frame.length == 48)
            && (i'.sendNonce == r'.recvNonce <==> frame.length == 48)
  {
    assert X25519(i.localStatic, i.remoteEphemeral) == X25519(r.recvKey, i.localStaticPub);
    hide MixKey, X25519;
    SplitKeysDiffer(MixKey(i.ck, X25519(i.localStatic, i.remoteEphemeral).value).first);
  }

  lemma ThirdOpens(i: State, room: nat, r: State, frame: Frame)
    requires WriteThree(i, room).code == Ok && ReadThree(r, frame).code == Ok
    requires frame.cipher == WriteThree(i, room).output.cipher
    ensures i.hash == r.hash && i.sendKey == r.sendKey
  {
    hide X25519, MixKey, Split;
  }

  /** Whatever the network did before: if a responder accepts as message 3 the ciphertext an honest initiator
      wrote, both ends hold the same chaining key and crosswise equal transport keys and know each other's static
      keys. Their handshake hashes and the initiator-to-responder counters agree exactly when the accepted frame
      carried nothing after that ciphertext. */
  lemma MatchingTranscripts(i: State, staticI: nat, room: nat, r: State, staticR: nat, frame: Frame)
    requires Reachable(i, true, staticI) && i.step == 2 && WriteThree(i, room).code == Ok
    requires Reachable(r, false, staticR) && r.step == 2 && ReadThree(r, frame).code == Ok
    requires frame.cipher == WriteThree(i, room).output.cipher
    ensures var i', r' := WriteThree(i, room).state, ReadThree(r, frame).state;
            && Matched(i', r')
            && i'.recvNonce == r'.sendNonce
            && (i'.hash == r'.hash <==> frame.length == 48)
            && (i'.sendNonce == r'.recvNonce <==> frame.length == 48)
  {
    hide WriteThree, ReadThree, X25519, MixKey, Split, Reachable;
    ReachableKnowledge(i, true, staticI);
    ReachableKnowledge(r, false, staticR);
    ThirdOpens(i, room, r, frame);
    var mi: Second :| HeardTwo(i, mi);
    var mr: Second :| SpokeTwo(r, mr);
    hide HeardTwo, SpokeTwo;
    SameSecondMessage(i, r, mi, mr);
    FinishTogether(i, room, r, frame, mr.ephemeral);
  }

  // ---------------------------------------------------------------- which keys seal

  ghost predicate FirstKey(k: Term) {
    exists dh: Term :: dh != Empty && k == MixKey(Protocol, dh).second
  }

  ghost predicate SecondKey(k: Term) {
    exists dh: Term, dh': Term :: dh' != Empty && k == MixKey(MixKey(Protocol, dh).first, dh').second
  }

  ghost predicate TransportKey(k: Term, ofInitiator: bool) {
    exists ck: Term :: k == if ofInitiator then Split(ck).first else Split(ck).second
  }

  /** The keys under which a session of either role ever emits a ciphertext. */
  ghost predicate SealingKey(k: Term, ofInitiator: bool) {
    TransportKey(k, ofInitiator) || if ofInitiator then SecondKey(k) else FirstKey(k)
  }

  lemma X25519NotEmpty(secret: Term, point: Term)
    ensures X25519(secret, point) != Some(Empty)
  {
  }

  /** A session only ever emits under its sealing keys, with its current counter, which then moves on. */
  lemma EmitsUnderSealingKey(s: State, call: Call, isInitiator: bool, staticId: nat)
    requires Knowledge(s, isInitiator, staticId) && Emits(s, call).Some?
    ensures var c := Emits(s, call).value;
            && c.Sealed? && c.nonce == s.sendNonce && SealingKey(c.sealKey, isInitiator)
            && Next(s, call).sendNonce == s.sendNonce + 1
  {
    hide X25519, MixKey;
    match call
    case Handshake(input, ephemeral, room) =>
      if isInitiator && s.step == 2 {
        var m: Second :| HeardTwo(s, m);
        var ee, es := X25519(Scalar(m.ephemeral), s.remoteEphemeral), X25519(Scalar(m.ephemeral), s.remoteStatic);
        X25519NotEmpty(Scalar(m.ephemeral), s.remoteStatic);
        assert s.sendKey == MixKey(MixKey(Protocol, ee.value).first, es.value).second;
        assert SecondKey(s.sendKey);
      } else if !isInitiator && s.step == 1 {
        var ee := X25519(Scalar(ephemeral), s.remoteEphemeral);
        X25519NotEmpty(Scalar(ephemeral), s.remoteEphemeral);
        assert FirstKey(MixKey(Protocol, ee.value).second);
      }
    case Send(plain, length, space) =>
      assert TransportKey(s.sendKey, isInitiator);
  }

  lemma SealingKeysDisjoint(k: Term)
    ensures !(SealingKey(k, true) && SealingKey(k, false))
  {
  }

  /** The key under which a responder would open a payload after message 3 is never a sealing key. */
  lemma PayloadKeyNeverSeals(d1: Term, d2: Term, d3: Term, ofInitiator: bool)
    requires d3 != Empty
    ensures !SealingKey(MixKey(MixKey(MixKey(Protocol, d1).first, d2).first, d3).second, ofInitiator)
  {
  }

  /** A ciphertext that some honest session of either role put on the network at some point. */
  ghost predicate HonestCipher(c: Term) {
    exists s: State, isInitiator: bool, staticId: nat, call: Call ::
      Reachable(s, isInitiator, staticId) && Emits(s, call) == Some(c)
  }

  /** No replay or mix of honest ciphertexts passes for a payload after message 3. */
  lemma NoReplayedPayload(r: State, staticR: nat, frame: Frame)
    requires Reachable(r, false, staticR) && r.step == 2 && ReadThree(r, frame).code == Ok
    requires HonestCipher(frame.rest)
    ensures frame.length <= 48
  {
    if frame.length > 48 {
      ReachableKnowledge(r, false, staticR);
      var m: Second :| SpokeTwo(r, m);
      var ee, es := X25519(Scalar(m.ephemeral), r.remoteEphemeral), X25519(r.localStatic, r.remoteEphemeral);
      var peer := frame.cipher.plain;
      var se := X25519(r.recvKey, peer);
      var key := MixKey(r.ck, se.value).second;
      assert frame.rest.sealKey == key;
      X25519NotEmpty(r.recvKey, peer);
      var s: State, isInitiator: bool, staticId: nat, call: Call :|
        Reachable(s, isInitiator, staticId) && Emits(s, call) == Some(frame.rest);
      ReachableKnowledge(s, isInitiator, staticId);
      EmitsUnderSealingKey(s, call, isInitiator, staticId);
      hide X25519, SealingKey, SpokeTwo;
      assert r.ck == MixKey(MixKey(Protocol, ee.value).first, es.value).first;
      PayloadKeyNeverSeals(ee.value, es.value, se.value, isInitiator);
    }
  }

  /** The key under which a responder opens whatever follows the ciphertext of message 3. */
  function PayloadKey(r: State, peer: Term): Option<Term> {
    var se := X25519(r.recvKey, peer);
    if se.None? then None else Some(MixKey(r.ck, se.value).second)
  }

  /** A frame of the other kind: the same message 3 with a payload that does open. */
  lemma LongerFrameAccepted(r: State, frame: Frame, plain: Term, extra: nat)
    requires ReadThree(r, frame).code == Ok && frame.length == 48 && r.recvNonce + 1 != UINT64_MAX && extra >= 16
    ensures PayloadKey(r, frame.cipher.plain).Some?
    ensures var payload := Sealed(PayloadKey(r, frame.cipher.plain).value, r.recvNonce + 1, MixHash(r.hash, frame.cipher), plain);
            var longer := frame.(length := 48 + extra, rest := payload);
            && ReadThree(r, longer).code == Ok
            && ReadThree(r, longer).state.recvNonce == ReadThree(r, frame).state.recvNonce + 1
            && ReadThree(r, longer).state.hash == MixHash(ReadThree(r, frame).state.hash, payload)
  {
    hide X25519, MixKey;
  }

  /** Counters never pass the value at which sealing and opening stop. */
  ghost predicate InRange(s: State) {
    s.sendNonce <= UINT64_MAX && s.recvNonce <= UINT64_MAX
  }

  lemma NextInRange(s: State, call: Call)
    requires InRange(s)
    ensures InRange(Next(s, call))
  {
    hide X25519, MixKey;
  }

  lemma {:induction false} AfterInRange(s: State, calls: seq<Call>)
    requires InRange(s)
    ensures InRange(After(s, calls))
  {
    hide Next;
    if calls != [] {
      AfterInRange(s, calls[..|calls| - 1]);
      NextInRange(After(s, calls[..|calls| - 1]), calls[|calls| - 1]);
    }
  }

  lemma ReachableInRange(s: State, isInitiator: bool, staticId: nat)
    requires Reachable(s, isInitiator, staticId)
    ensures InRange(s)
  {
    hide After;
    var theirs: Term, calls: seq<Call> :| s == After(Fresh(isInitiator, staticId, theirs), calls);
    AfterInRange(Fresh(isInitiator, staticId, theirs), calls);
  }

  /** Both ends are where the transport starts from: matched, with level counters. */
  ghost predicate ReadyForTransport(i: State, r: State) {
    Matched(i, r) && i.sendNonce == r.recvNonce <= UINT64_MAX && i.recvNonce == r.sendNonce <= UINT64_MAX
  }

  /** Agreement over a network that alters, replays and mixes but cannot seal a payload under the key of the third mix:
      hashes, keys, identities and counters of both ends are equal. */
  lemma AgreementOverNetwork(i: State, staticI: nat, room: nat, r: State, staticR: nat, frame: Frame)
    requires Reachable(i, true, staticI) && i.step == 2 && WriteThree(i, room).code == Ok
    requires Reachable(r, false, staticR) && r.step == 2 && ReadThree(r, frame).code == Ok
    requires frame.cipher == WriteThree(i, room).output.cipher
    requires HonestCipher(frame.rest)
             || !(frame.rest.Sealed? && PayloadKey(r, frame.cipher.plain) == Some(frame.rest.sealKey))
    ensures var i', r' := WriteThree(i, room).state, ReadThree(r, frame).state;
            frame.length == 48 && i'.hash == r'.hash && ReadyForTransport(i', r')
  {
    hide X25519, MixKey, Matched, HonestCipher;
    if HonestCipher(frame.rest) {
      NoReplayedPayload(r, staticR, frame);
    }
    MatchingTranscripts(i, staticI, room, r, staticR, frame);
    ReachableInRange(i, true, staticI);
    ReachableInRange(r, false, staticR);
    hide Reachable;
  }

  // ---------------------------------------------------------------- nonces

  lemma NextNonceGrows(s: State, call: Call)
    ensures s.sendNonce <= Next(s, call).sendNonce
  {
  }

  /** Ciphertexts under sealing keys whose nonces strictly increase and stay below `limit`. */
  ghost predicate Rising(out: seq<Term>, isInitiator: bool, limit: nat) {
    && (forall a: nat | a < |out| :: out[a].Sealed? && SealingKey(out[a].sealKey, isInitiator) && out[a].nonce < limit)
    && (forall a: nat, b: nat | a < b < |out| :: out[a].nonce < out[b].nonce)
  }

  lemma RisingAppend(out: seq<Term>, isInitiator: bool, limit: nat, c: Term)
    requires Rising(out, isInitiator, limit) && c.Sealed? && SealingKey(c.sealKey, isInitiator) && c.nonce == limit
    ensures Rising(out + [c], isInitiator, limit + 1)
  {
    hide SealingKey;
  }

  lemma RisingMonotonic(out: seq<Term>, isInitiator: bool, limit: nat, limit': nat)
    requires Rising(out, isInitiator, limit) && limit <= limit'
    ensures Rising(out, isInitiator, limit')
  {
    hide SealingKey;
  }

  /** Over any run of one session the nonces of the ciphertexts it emits strictly increase, so no key is ever used
      twice with one nonce, across the handshake and the transport. */
  lemma {:induction false} EmittedNoncesIncrease(isInitiator: bool, staticId: nat, theirs: Term, calls: seq<Call>)
    ensures var start := Fresh(isInitiator, staticId, theirs);
            Rising(Emitted(start, calls), isInitiator, After(start, calls).sendNonce)
  {
    hide Next, Emits, Rising, Knowledge;
    var start := Fresh(isInitiator, staticId, theirs);
    if calls == [] {
      assert Rising([], isInitiator, After(start, calls).sendNonce) by {
        EmptyRises(isInitiator, After(start, calls).sendNonce);
      }
    } else {
      var prefix, call := calls[..|calls| - 1], calls[|calls| - 1];
      var s := After(start, prefix);
      EmittedNoncesIncrease(isInitiator, staticId, theirs, prefix);
      AfterKnowledge(isInitiator, staticId, theirs, prefix);
      assert After(start, calls) == Next(s, call);
      if Emits(s, call).Some? {
        EmitsUnderSealingKey(s, call, isInitiator, staticId);
        RisingAppend(Emitted(start, prefix), isInitiator, s.sendNonce, Emits(s, call).value);
        assert Emitted(start, calls) == Emitted(start, prefix) + [Emits(s, call).value];
      } else {
        NextNonceGrows(s, call);
        RisingMonotonic(Emitted(start, prefix), isInitiator, s.sendNonce, Next(s, call).sendNonce);
        assert Emitted(start, calls) == Emitted(start, prefix);
      }
    }
  }

  lemma EmptyRises(isInitiator: bool, limit: nat)
    ensures Rising([], isInitiator, limit)
  {
  }

  /** An initiator and a responder never use one (key, nonce) pair twice between them. */
  lemma NoNonceReuseBetweenRoles(staticI: nat, callsI: seq<Call>, theirsI: Term,
                                 staticR: nat, callsR: seq<Call>, theirsR: Term, a: nat, b: nat)
    requires a < |Emitted(Fresh(true, staticI, theirsI), callsI)|
    requires b < |Emitted(Fresh(false, staticR, theirsR), callsR)|
    ensures var x, y := Emitted(Fresh(true, staticI, theirsI), callsI)[a], Emitted(Fresh(false, staticR, theirsR), callsR)[b];
            x.Sealed? && y.Sealed? && x.sealKey != y.sealKey
  {
    hide SealingKey, Emitted, After, Fresh;
    EmittedNoncesIncrease(true, staticI, theirsI, callsI);
    EmittedNoncesIncrease(false, staticR, theirsR, callsR);
    SealingKeysDisjoint(Emitted(Fresh(true, staticI, theirsI), callsI)[a].sealKey);
  }

  // ---------------------------------------------------------------- undisturbed handshake

  /** Three messages delivered as they were written complete both roles, matched and with level counters. */
  lemma HandshakeAgreement(staticI: nat, staticR: nat, theirsI: Term, theirsR: Term, ei: nat, er: nat, x: nat,
                           room1: nat, room2: nat, room3: nat)
    requires room1 >= 32 && room2 >= 80 && room3 >= 48
    ensures var one := HandshakeStep(Fresh(true, staticI, theirsI), None, ei, Some(room1));
            var r1 := HandshakeStep(Fresh(false, staticR, theirsR), Some(one.output), x, None);
            var two := HandshakeStep(r1.state, None, er, Some(room2));
            var i2 := HandshakeStep(one.state, Some(two.output), x, None);
            var three := HandshakeStep(i2.state, None, x, Some(room3));
            var r3 := HandshakeStep(two.state, Some(three.output), x, None);
            && one.code == r1.code == two.code == i2.code == three.code == r3.code == Ok
            && Matched(three.state, r3.state)
            && three.state.hash == r3.state.hash
            && three.state.remoteStatic == Public(staticR) && r3.state.remoteStatic == Public(staticI)
            && three.state.sendNonce == r3.state.recvNonce == 1
            && three.state.recvNonce == r3.state.sendNonce == 1
  {
  }

  // ---------------------------------------------------------------- buffers and codes

  /** A handshake step never writes more than the room it is given; with too little room for its message it changes
      nothing and can be repeated. */
  lemma OutputFits(s: State, input: Option<Frame>, ephemeral: nat, room: Option<nat>)
    ensures var r := HandshakeStep(s, input, ephemeral, room);
            var space := if room.Some? then room.value else 0;
            var need := if s.isInitiator then (if s.step == 0 then 32 else 48) else 80;
            var writes := !s.complete && (if s.isInitiator then s.step == 0 || s.step == 2 else s.step == 1);
            && r.output.length <= space
            && (r.code == Ok ==> r.output.length == if writes then need else 0)
            && (writes && space < need ==> r == Fail(s, BadInput))
  {
    hide X25519, MixKey, Split;
  }

  /** A message too short for its fixed part, or none, changes nothing. */
  lemma ShortInputChangesNothing(s: State, input: Option<Frame>, ephemeral: nat, room: Option<nat>)
    ensures var need := if s.isInitiator then 80 else if s.step == 0 then 32 else 48;
            var reading := !s.complete && (if s.isInitiator then s.step == 1 else s.step == 0 || s.step == 2);
            reading && (input.None? || input.value.length < need) ==> HandshakeStep(s, input, ephemeral, room) == Fail(s, BadInput)
  {
    hide X25519, MixKey, Split;
  }

  /** Why message 2 is refused: too short, or cut off behind its fixed part; a key that X25519 fails on; a static key or a
      payload that does not open. */
  lemma CodesOfTwo(s: State, frame: Frame)
    ensures var code := ReadTwo(s, frame).code;
            var ee := X25519(s.sendKey, frame.pub);
            var opens := StaticOpensTwo(s, frame);
            && (frame.length < 80 ==> code == BadInput)
            && (frame.length >= 80 && ee.None? ==> code == BadKey)
            && (frame.length >= 80 && ee.Some? && !opens ==> code == BadSig)
            && (opens && X25519(s.sendKey, frame.cipher.plain).None? ==> code == BadKey)
            && (opens && X25519(s.sendKey, frame.cipher.plain).Some? ==>
                  (code == BadInput <==> 80 < frame.length < 96) && (frame.length == 80 ==> code == Ok) && code != BadKey)
            && code != Internal
  {
    hide X25519, MixKey;
  }

  /** The same for message 3. */
  lemma CodesOfThree(s: State, frame: Frame)
    ensures var code := ReadThree(s, frame).code;
            var opens := StaticOpensThree(s, frame);
            && (frame.length < 48 ==> code == BadInput)
            && (frame.length >= 48 && !opens ==> code == BadSig)
            && (opens && X25519(s.recvKey, frame.cipher.plain).None? ==> code == BadKey)
            && (opens && X25519(s.recvKey, frame.cipher.plain).Some? ==>
                  (code == BadInput <==> 48 < frame.length < 64) && (frame.length == 48 ==> code == Ok) && code != BadKey)
            && code != Internal
  {
    hide X25519, MixKey;
  }

  /** Message 2 and 3 are written unless the room is short, a key fails or the counter is spent. */
  lemma CodesOfWriting(s: State, ephemeral: nat, room: nat)
    ensures WriteOne(s, ephemeral, room).code == (if room < 32 then BadInput else Ok)
    ensures WriteTwo(s, ephemeral, room).code
            == (if room < 80 then BadInput
                else if X25519(Scalar(ephemeral), s.remoteEphemeral).None? then BadKey
                else if s.sendNonce == UINT64_MAX then Internal
                else if X25519(s.localStatic, s.remoteEphemeral).None? then BadKey else Ok)
    ensures WriteThree(s, room).code
            == (if room < 48 then BadInput
                else if s.sendNonce == UINT64_MAX then Internal
                else if X25519(s.localStatic, s.remoteEphemeral).None? then BadKey else Ok)
  {
    hide X25519, MixKey, Split;
  }

  /** When a transport message is sent and when one is opened. */
  lemma TransportCodes(s: State, plain: Term, plainLength: nat, room: nat, cipher: Term, cipherLength: nat)
    ensures var r := SendStep(s, plain, plainLength, room);
            && (r.1 == Ok <==> s.complete && plainLength + 16 <= room && s.sendNonce != UINT64_MAX)
            && (r.1 == Internal <==> s.complete && plainLength + 16 <= room && s.sendNonce == UINT64_MAX)
            && (r.1 == BadInput <==> !s.complete || room < plainLength + 16)
            && (r.1 != Ok ==> r.0 == s && r.2 == Empty)
    ensures var r := RecvStep(s, cipher, cipherLength);
            && (r.1 == BadInput <==> !s.complete || cipherLength < 16)
            && (r.1 != Ok ==> r.0 == s && r.2 == Empty)
            && (r.1 == Ok ==> s.recvNonce != UINT64_MAX)
  {
  }

  // ---------------------------------------------------------------- retries

  /** The sealed static key in message 2 opens, whatever may be wrong with the rest. */
  predicate StaticOpensTwo(s: State, frame: Frame) {
    var ee := X25519(s.sendKey, frame.pub);
    frame.length >= 80 && ee.Some?
    && Open(MixKey(s.ck, ee.value).second, s.recvNonce, MixHash(s.hash, frame.pub), frame.cipher).Some?
  }

  predicate StaticOpensThree(s: State, frame: Frame) {
    frame.length >= 48 && Open(s.sendKey, s.recvNonce, s.hash, frame.cipher).Some?
  }

  /** A rejected message 2 leaves the initiator able to accept the genuine one exactly when the static key in it does not
      open: otherwise the receive counter moves and the genuine message no longer opens. */
  lemma RetryAfterRejectedTwo(s: State, bad: Frame, good: Frame)
    requires ReadTwo(s, good).code == Ok && ReadTwo(s, bad).code != Ok
    ensures ReadTwo(ReadTwo(s, bad).state, good).code == Ok <==> !StaticOpensTwo(s, bad)
  {
    hide X25519, MixKey;
  }

  /** The same for message 3 at the responder. */
  lemma RetryAfterRejectedThree(s: State, bad: Frame, good: Frame)
    requires ReadThree(s, good).code == Ok && ReadThree(s, bad).code != Ok
    ensures ReadThree(ReadThree(s, bad).state, good).code == Ok <==> !StaticOpensThree(s, bad)
  {
    hide X25519, MixKey;
  }

  /** Inputs of the failing kind: the genuine messages with sixteen stray bytes after them. */
  lemma StrayBytesBlockRetry(s: State, good: Frame, id: nat)
    ensures good.length == 80 && ReadTwo(s, good).code == Ok ==>
              var bad := good.(length := 96, rest := Opaque(id));
              ReadTwo(s, bad).code == BadSig && ReadTwo(ReadTwo(s, bad).state, good).code == BadSig
    ensures good.length == 48 && ReadThree(s, good).code == Ok ==>
              var bad := good.(length := 64, rest := Opaque(id));
              ReadThree(s, bad).code == BadSig && ReadThree(ReadThree(s, bad).state, good).code == BadSig
  {
    hide X25519, MixKey;
  }

  // ---------------------------------------------------------------- transport

  /** One direction of traffic: plaintexts sent, their ciphertexts, and plaintexts accepted at the far end. */
  datatype Flow = Flow(sent: seq<Term>, wire: seq<Term>, accepted: seq<Term>)

  datatype Channel = Channel(a: State, b: State, toB: Flow, toA: Flow)

  /** Dropping a ciphertext is never delivering it; duplicating and reordering is delivering it when one likes. */
  datatype Event =
    | SendFromA(plain: Term, plainLength: nat, room: nat)
    | SendFromB(plain: Term, plainLength: nat, room: nat)
    | DeliverToA(cipher: Term, length: nat)
    | DeliverToB(cipher: Term, length: nat)

  /** The network cannot seal under the session's keys: what it delivers under them it has seen before. */
  ghost predicate Deliverable(c: Channel, cipher: Term) {
    cipher.Sealed? && cipher.sealKey in {c.a.sendKey, c.b.sendKey} ==> cipher in c.toA.wire || cipher in c.toB.wire
  }

  ghost predicate Allowed(c: Channel, e: Event) {
    match e
    case SendFromA(_, _, _) => true
    case SendFromB(_, _, _) => true
    case DeliverToA(cipher, _) => Deliverable(c, cipher)
    case DeliverToB(cipher, _) => Deliverable(c, cipher)
  }

  function Sent(f: Flow, r: (State, Code, Term), plain: Term): Flow {
    if r.1 == Ok then f.(sent := f.sent + [plain], wire := f.wire + [r.2]) else f
  }

  function Accepted(f: Flow, r: (State, Code, Term)): Flow {
    if r.1 == Ok then f.(accepted := f.accepted + [r.2]) else f
  }

  function ChannelStep(c: Channel, e: Event): Channel {
    match e
    case SendFromA(plain, length, room) =>
      var r := SendStep(c.a, plain, length, room);
      c.(a := r.0, toB := Sent(c.toB, r, plain))
    case SendFromB(plain, length, room) =>
      var r := SendStep(c.b, plain, length, room);
      c.(b := r.0, toA := Sent(c.toA, r, plain))
    case DeliverToA(cipher, length) =>
      var r := RecvStep(c.a, cipher, length);
      c.(a := r.0, toA := Accepted(c.toA, r))
    case DeliverToB(cipher, length) =>
      var r := RecvStep(c.b, cipher, length);
      c.(b := r.0, toB := Accepted(c.toB, r))
  }

  /** A run of the channel in which every event is one the network can bring about. */
  ghost predicate ChannelRun(states: seq<Channel>, events: seq<Event>) {
    && |states| == |events| + 1
    && forall k: nat | k < |events| :: Allowed(states[k], events[k]) && states[k + 1] == ChannelStep(states[k], events[k])
  }

  ghost predicate FlowInv(f: Flow, sender: State, receiver: State, base: nat) {
    && sender.sendKey == receiver.recvKey
    && |f.wire| == |f.sent|
    && (forall i: nat | i < |f.wire| :: f.wire[i] == Sealed(sender.sendKey, base + i, Empty, f.sent[i]))
    && f.accepted <= f.sent
    && sender.sendNonce == base + |f.sent| <= UINT64_MAX
    && receiver.recvNonce == base + |f.accepted|
  }

  ghost predicate ChannelInv(c: Channel, baseA: nat, baseB: nat) {
    && c.a.complete && c.b.complete && c.a.sendKey != c.b.sendKey
    && FlowInv(c.toB, c.a, c.b, baseA) && FlowInv(c.toA, c.b, c.a, baseB)
  }

  lemma FlowSend(f: Flow, sender: State, receiver: State, base: nat, plain: Term, length: nat, room: nat)
    requires FlowInv(f, sender, receiver, base) && sender.complete
    ensures var r := SendStep(sender, plain, length, room);
            FlowInv(Sent(f, r, plain), r.0, receiver, base)
  {
  }

  lemma FlowRecv(f: Flow, sender: State, receiver: State, base: nat, cipher: Term, length: nat)
    requires FlowInv(f, sender, receiver, base) && receiver.complete
    requires cipher.Sealed? && cipher.sealKey == sender.sendKey ==> cipher in f.wire
    ensures var r := RecvStep(receiver, cipher, length);
            FlowInv(Accepted(f, r), sender, r.0, base)
  {
    var r := RecvStep(receiver, cipher, length);
    if r.1 == Ok {
      var i: nat :| i < |f.wire| && f.wire[i] == cipher;
      assert i == |f.accepted|;
      assert f.sent[..i] + [f.sent[i]] == f.sent[..i + 1];
    }
  }

  lemma ChannelStepKeepsInv(c: Channel, e: Event, baseA: nat, baseB: nat)
    requires ChannelInv(c, baseA, baseB) && Allowed(c, e)
    ensures ChannelInv(ChannelStep(c, e), baseA, baseB)
  {
    match e
    case SendFromA(plain, length, room) =>
      FlowSend(c.toB, c.a, c.b, baseA, plain, length, room);
    case SendFromB(plain, length, room) =>
      FlowSend(c.toA, c.b, c.a, baseB, plain, length, room);
    case DeliverToA(cipher, length) =>
      FlowRecv(c.toA, c.b, c.a, baseB, cipher, length);
    case DeliverToB(cipher, length) =>
      FlowRecv(c.toB, c.a, c.b, baseA, cipher, length);
  }

  lemma {:induction false} RunKeepsInv(states: seq<Channel>, events: seq<Event>, baseA: nat, baseB: nat, k: nat)
    requires ChannelRun(states, events) && k <= |events| && ChannelInv(states[0], baseA, baseB)
    ensures ChannelInv(states[k], baseA, baseB)
  {
    if k > 0 {
      RunKeepsInv(states, events, baseA, baseB, k - 1);
      ChannelStepKeepsInv(states[k - 1], events[k - 1], baseA, baseB);
    }
  }

  const NO_TRAFFIC := Flow([], [], [])

  /** The channel between two sessions right after their handshake. */
  function OpenChannel(i: State, r: State): Channel {
    Channel(i, r, NO_TRAFFIC, NO_TRAFFIC)
  }

  /** No two of the ciphertexts are sealed under one key with one nonce. */
  ghost predicate NoPairTwice(out: seq<Term>) {
    forall x, y :: 0 <= x < y < |out| ==>
      out[x].Sealed? && out[y].Sealed? && (out[x].sealKey, out[x].nonce) != (out[y].sealKey, out[y].nonce)
  }

  /** Transport safety. From matched sessions with level counters, over any run of sends, drops, duplicates,
      reorderings, reflections and injections, each side has accepted a prefix of what the other sent, and no two
      ciphertexts share key and nonce. */
  lemma TransportSafety(i: State, r: State, states: seq<Channel>, events: seq<Event>, k: nat)
    requires ReadyForTransport(i, r)
    requires ChannelRun(states, events) && states[0] == OpenChannel(i, r) && k <= |events|
    ensures states[k].toB.accepted <= states[k].toB.sent && states[k].toA.accepted <= states[k].toA.sent
    ensures NoPairTwice(states[k].toB.wire + states[k].toA.wire)
  {
    RunKeepsInv(states, events, i.sendNonce, r.sendNonce, k);
  }

  /** The oldest message not yet accepted, if it arrived now, would be accepted with the plaintext that was sent. */
  ghost predicate NextWouldArrive(f: Flow, receiver: State, length: nat) {
    var n := |f.accepted|;
    n < |f.sent| ==>
      n < |f.wire| && RecvStep(receiver, f.wire[n], length).1 == Ok && RecvStep(receiver, f.wire[n], length).2 == f.sent[n]
  }

  /** Rejection is harmless: a ciphertext that is not accepted changes nothing at either end, and at every point of
      every run the genuine next message would be accepted, in both directions. */
  lemma GenuineNextIsAccepted(i: State, r: State, states: seq<Channel>, events: seq<Event>, k: nat, length: nat)
    requires ReadyForTransport(i, r)
    requires ChannelRun(states, events) && states[0] == OpenChannel(i, r) && k <= |events| && length >= 16
    ensures forall s: State, cipher: Term, l: nat :: RecvStep(s, cipher, l).1 != Ok ==> RecvStep(s, cipher, l).0 == s
    ensures NextWouldArrive(states[k].toB, states[k].b, length) && NextWouldArrive(states[k].toA, states[k].a, length)
  {
    RunKeepsInv(states, events, i.sendNonce, r.sendNonce, k);
  }
}
