/**
  The Noise_XX handshake and transport of the C core, as functions on symbolic byte strings. Hashes, MACs and
  ciphertexts are free constructors, so equal strings have equal origins; X25519 commutes; the AEAD opens a
  ciphertext only under the key, nonce and associated data it was sealed with.
 */
module NoiseSpec {
  import opened Prelude

  datatype Term =
    | Empty
    | Protocol                                          // the protocol name, exactly 32 bytes long
    | Opaque(id: nat)                                   // any string that is none of the others
    | Scalar(id: nat)
    | Public(id: nat)                                   // the public key of Scalar(id)
    | LowOrder(id: nat)                                 // a public key on which X25519 fails
    | Shared(lo: nat, hi: nat)                          // X25519 of two key pairs
    | SharedWith(secret: Term, point: Term)             // X25519 with a string nobody has the scalar of
    | MixHash(before: Term, data: Term)
    | Hmac(key: Term, data: Term)
    | One                                               // the byte 0x01
    | Two(prefix: Term)                                 // prefix followed by the byte 0x02
    | Sealed(sealKey: Term, nonce: nat, ad: Term, plain: Term)

  const UINT64_MAX: nat := 0xFFFF_FFFF_FFFF_FFFF

  function X25519(secret: Term, point: Term): Option<Term> {
    if point.LowOrder? then None
    else if secret.Scalar? && point.Public? then
      Some(if secret.id <= point.id then Shared(secret.id, point.id) else Shared(point.id, secret.id))
    else Some(SharedWith(secret, point))
  }

  /** Both ends compute one value, and exactly the keys of low order make it fail. */
  lemma X25519Agrees(a: nat, b: nat, secret: Term, point: Term)
    ensures X25519(Scalar(a), Public(b)) == X25519(Scalar(b), Public(a)) && X25519(Scalar(a), Public(b)).Some?
    ensures X25519(secret, point).None? <==> point.LowOrder?
  {
  }

  datatype Keys = Keys(first: Term, second: Term)

  /** New chaining key and cipher key. */
  function MixKey(ck: Term, dh: Term): Keys {
    var t := Hmac(ck, dh);
    var next := Hmac(t, One);
    Keys(next, Hmac(t, Two(next)))
  }

  /** Transport keys, the initiator's sending key first. */
  function Split(ck: Term): Keys {
    MixKey(ck, Empty)
  }

  /** The sealed string, unless the nonce counter is exhausted. */
  function Seal(key: Term, nonce: nat, ad: Term, plain: Term): Option<Term> {
    if nonce == UINT64_MAX then None else Some(Sealed(key, nonce, ad, plain))
  }

  function Open(key: Term, nonce: nat, ad: Term, cipher: Term): Option<Term> {
    if nonce == UINT64_MAX then None
    else if cipher.Sealed? && cipher.sealKey == key && cipher.nonce == nonce && cipher.ad == ad then Some(cipher.plain)
    else None
  }

  // ---------------------------------------------------------------- sessions

  /** A message as its reader cuts it: `length` bytes of which the leading public key, the 48-byte
      ciphertext and whatever follows are told apart by position. */
  datatype Frame = Frame(length: nat, pub: Term, cipher: Term, rest: Term)

  datatype Code = Ok | BadInput | BadKey | BadSig | Internal

  datatype State = State(
    isInitiator: bool, step: nat, complete: bool,
    hash: Term, ck: Term,
    localStatic: Term, localStaticPub: Term,
    localEphemeral: Term, remoteEphemeral: Term, remoteStatic: Term,
    sendKey: Term, recvKey: Term, sendNonce: nat, recvNonce: nat)

  datatype Result = Result(state: State, code: Code, output: Frame)

  const NO_OUTPUT := Frame(0, Empty, Empty, Empty)

  function Fail(s: State, code: Code): Result {
    Result(s, code, NO_OUTPUT)
  }

  /** A session before its first step. */
  function Fresh(isInitiator: bool, staticId: nat, theirStatic: Term): State {
    State(isInitiator, 0, false, Protocol, Protocol, Scalar(staticId), Public(staticId),
          Empty, Empty, theirStatic, Empty, Empty, 0, 0)
  }

  /** Initiator, step 0: send the ephemeral key. */
  function WriteOne(s: State, ephemeral: nat, room: nat): Result {
    if room < 32 then Fail(s, BadInput)
    else
      var e := Public(ephemeral);
      Result(s.(localEphemeral := e, sendKey := Scalar(ephemeral), hash := MixHash(s.hash, e), step := 1),
             Ok, Frame(32, e, Empty, Empty))
  }

  /** Responder, step 0. */
  function ReadOne(s: State, input: Frame): Result {
    if input.length < 32 then Fail(s, BadInput)
    else
      Result(s.(remoteEphemeral := input.pub, hash := MixHash(s.hash, input.pub), step := 1), Ok, NO_OUTPUT)
  }

  /** Responder, step 1: ephemeral key and sealed static key. */
  function WriteTwo(s: State, ephemeral: nat, room: nat): Result {
    if room < 80 then Fail(s, BadInput)
    else
      var e := Public(ephemeral);
      var s1 := s.(localEphemeral := e, recvKey := Scalar(ephemeral));
      var h1 := MixHash(s.hash, e);
      match X25519(Scalar(ephemeral), s.remoteEphemeral)
      case None => Fail(s1, BadKey)
      case Some(ee) =>
        var k1 := MixKey(s.ck, ee);
        match Seal(k1.second, s.sendNonce, h1, s.localStaticPub)
        case None => Fail(s1, Internal)
        case Some(cipher) =>
          var s2 := s1.(sendNonce := s.sendNonce + 1);
          match X25519(s.localStatic, s.remoteEphemeral)
          case None => Fail(s2, BadKey)
          case Some(es) =>
            var k2 := MixKey(k1.first, es);
            Result(s2.(sendKey := k2.second, ck := k2.first, hash := MixHash(h1, cipher), step := 2),
                   Ok, Frame(80, e, cipher, Empty))
  }

  /** Opens an optional trailing payload: new hash and receive counter, or the error. */
  datatype Trailing = Accepted(hash: Term, nonce: nat) | Refused(code: Code)

  function ReadTrailing(h: Term, key: Term, nonce: nat, input: Frame, offset: nat): Trailing {
    if input.length <= offset then Accepted(h, nonce)
    else if input.length - offset < 16 then Refused(BadInput)
    else if Open(key, nonce, h, input.rest).None? then Refused(BadSig)
    else Accepted(MixHash(h, input.rest), nonce + 1)
  }

  /** Initiator, step 1. A failure keeps whatever was written before it. */
  function ReadTwo(s: State, input: Frame): Result {
    if input.length < 80 then Fail(s, BadInput)
    else
      var s1 := s.(remoteEphemeral := input.pub);
      var h1 := MixHash(s.hash, input.pub);
      match X25519(s.sendKey, input.pub)
      case None => Fail(s1, BadKey)
      case Some(ee) =>
        var k1 := MixKey(s.ck, ee);
        match Open(k1.second, s.recvNonce, h1, input.cipher)
        case None => Fail(s1, BadSig)
        case Some(peer) =>
          var s2 := s1.(recvNonce := s.recvNonce + 1, remoteStatic := peer);
          match X25519(s.sendKey, peer)
          case None => Fail(s2, BadKey)
          case Some(es) =>
            var k2 := MixKey(k1.first, es);
            match ReadTrailing(MixHash(h1, input.cipher), k2.second, s2.recvNonce, input, 80)
            case Refused(code) => Fail(s2, code)
            case Accepted(h, nonce) =>
              Result(s2.(sendKey := k2.second, ck := k2.first, hash := h, recvNonce := nonce, step := 2), Ok, NO_OUTPUT)
  }

  /** Initiator, step 2: sealed static key; the handshake is complete. */
  function WriteThree(s: State, room: nat): Result {
    if room < 48 then Fail(s, BadInput)
    else
      match Seal(s.sendKey, s.sendNonce, s.hash, s.localStaticPub)
      case None => Fail(s, Internal)
      case Some(cipher) =>
        var s1 := s.(sendNonce := s.sendNonce + 1);
        match X25519(s.localStatic, s.remoteEphemeral)
        case None => Fail(s1, BadKey)
        case Some(se) =>
          var ck := MixKey(s.ck, se).first;
          var t := Split(ck);
          Result(s1.(sendKey := t.first, recvKey := t.second, ck := ck, hash := MixHash(s.hash, cipher),
                     step := 3, complete := true),
                 Ok, Frame(48, Empty, cipher, Empty))
  }

  /** Responder, step 2. */
  function ReadThree(s: State, input: Frame): Result {
    if input.length < 48 then Fail(s, BadInput)
    else
      match Open(s.sendKey, s.recvNonce, s.hash, input.cipher)
      case None => Fail(s, BadSig)
      case Some(peer) =>
        var s1 := s.(recvNonce := s.recvNonce + 1, remoteStatic := peer);
        match X25519(s.recvKey, peer)
        case None => Fail(s1, BadKey)
        case Some(se) =>
          var k3 := MixKey(s.ck, se);
          match ReadTrailing(MixHash(s.hash, input.cipher), k3.second, s1.recvNonce, input, 48)
          case Refused(code) => Fail(s1, code)
          case Accepted(h, nonce) =>
            var t := Split(k3.first);
            Result(s1.(sendKey := t.second, recvKey := t.first, ck := k3.first, hash := h, recvNonce := nonce,
                       step := 3, complete := true),
                   Ok, NO_OUTPUT)
  }

  /** One call of the handshake function. `ephemeral` is the key pair drawn if the step draws one, `room` the
      size of the output buffer, absent when there is none. */
  function HandshakeStep(s: State, input: Option<Frame>, ephemeral: nat, room: Option<nat>): Result {
    if s.complete then Fail(s, BadInput)
    else
      var space := if room.Some? then room.value else 0;
      var frame := if input.Some? then input.value else NO_OUTPUT;
      match (s.isInitiator, s.step)
      case (true, 0) => WriteOne(s, ephemeral, space)
      case (true, 1) => ReadTwo(s, frame)
      case (true, 2) => WriteThree(s, space)
      case (false, 0) => ReadOne(s, frame)
      case (false, 1) => WriteTwo(s, ephemeral, space)
      case (false, 2) => ReadThree(s, frame)
      case _ => Fail(s, BadInput)
  }

  // ---------------------------------------------------------------- transport

  function SendStep(s: State, plain: Term, plainLength: nat, room: nat): (r: (State, Code, Term)) {
    if !s.complete || room < plainLength + 16 then (s, BadInput, Empty)
    else
      match Seal(s.sendKey, s.sendNonce, Empty, plain)
      case None => (s, Internal, Empty)
      case Some(cipher) => (s.(sendNonce := s.sendNonce + 1), Ok, cipher)
  }

  function RecvStep(s: State, cipher: Term, cipherLength: nat): (r: (State, Code, Term)) {
    if !s.complete || cipherLength < 16 then (s, BadInput, Empty)
    else
      match Open(s.recvKey, s.recvNonce, Empty, cipher)
      case None => (s, BadSig, Empty)
      case Some(plain) => (s.(recvNonce := s.recvNonce + 1), Ok, plain)
  }
}
