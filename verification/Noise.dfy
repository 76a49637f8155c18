/** The session state of p2p/core/src/noise_xx.c and the calls that update it in place. */
module Noise {
  import opened Prelude
  import opened NoiseSpec

  class Session {
    var isInitiator: bool
    var step: nat
    var complete: bool
    var hash: Term
    var ck: Term
    var localStatic: Term
    var localStaticPub: Term
    var localEphemeral: Term
    var remoteEphemeral: Term
    var remoteStatic: Term
    var sendKey: Term
    var recvKey: Term
    var sendNonce: nat
    var recvNonce: nat

    ghost function View(): State
      reads this
    {
      State(isInitiator, step, complete, hash, ck, localStatic, localStaticPub, localEphemeral,
            remoteEphemeral, remoteStatic, sendKey, recvKey, sendNonce, recvNonce)
    }

    constructor (staticId: nat, theirStatic: Option<Term>, initiator: bool)
      ensures View() == Fresh(initiator, staticId, if theirStatic.Some? then theirStatic.value else Empty)
      ensures remoteStatic == if theirStatic.Some? then theirStatic.value else Empty
      ensures localStatic == Scalar(staticId) && localStaticPub == Public(staticId) && isInitiator == initiator
      ensures step == 0 && !complete && hash == ck == Protocol && sendNonce == recvNonce == 0
    {
      localStatic, localStaticPub := Scalar(staticId), Public(staticId);
      remoteStatic := if theirStatic.Some? then theirStatic.value else Empty;
      hash, ck := Protocol, Protocol;
      localEphemeral, remoteEphemeral, sendKey, recvKey := Empty, Empty, Empty, Empty;
      sendNonce, recvNonce := 0, 0;
      step, isInitiator, complete := 0, initiator, false;
    }

    /** Seals under `key` with the sending counter. */
    method EncryptAndHash(h: Term, key: Term, plain: Term) returns (ok: bool, h': Term, cipher: Term)
      modifies this`sendNonce
      ensures var c := Seal(key, old(sendNonce), h, plain);
              && (ok <==> c.Some?)
              && (ok ==> cipher == c.value && h' == MixHash(h, cipher) && sendNonce == old(sendNonce) + 1)
              && (!ok ==> sendNonce == old(sendNonce))
    {
      var c := Seal(key, sendNonce, h, plain);
      if c.None? {
        return false, h, Empty;
      }
      sendNonce := sendNonce + 1;
      return true, MixHash(h, c.value), c.value;
    }

    /** Opens under `key` with the receiving counter; the hash moves only when the ciphertext opens. */
    method DecryptAndHash(h: Term, key: Term, cipher: Term) returns (ok: bool, h': Term, plain: Term)
      modifies this`recvNonce
      ensures var p := Open(key, old(recvNonce), h, cipher);
              && (ok <==> p.Some?)
              && (ok ==> plain == p.value && h' == MixHash(h, cipher) && recvNonce == old(recvNonce) + 1)
              && (!ok ==> recvNonce == old(recvNonce) && h' == h)
    {
      var p := Open(key, recvNonce, h, cipher);
      if p.None? {
        return false, h, Empty;
      }
      recvNonce := recvNonce + 1;
      return true, MixHash(h, cipher), p.value;
    }

    /** Opens what follows the fixed part of a handshake message, if anything does. */
    method ReadPayload(h: Term, key: Term, frame: Frame, offset: nat) returns (code: Code, h': Term)
      modifies this`recvNonce
      ensures var t := ReadTrailing(h, key, old(recvNonce), frame, offset);
              match t
              case Accepted(hash, nonce) => code == Ok && h' == hash && recvNonce == nonce
              case Refused(why) => code == why != Ok && recvNonce == old(recvNonce)
    {
      hide Open;
      if frame.length <= offset {
        return Ok, h;
      }
      if frame.length - offset < 16 {
        return BadInput, h;
      }
      var valid, h1, payload := DecryptAndHash(h, key, frame.rest);
      if !valid {
        return BadSig, h;
      }
      return Ok, h1;
    }

    /** Ends the handshake with the transport keys. */
    method Finish(h: Term, sending: Term, receiving: Term)
      modifies this`sendKey, this`recvKey, this`hash, this`step, this`complete
      ensures View() == old(View()).(sendKey := sending, recvKey := receiving, hash := h, step := 3, complete := true)
    {
      sendKey := sending;
      recvKey := receiving;
      hash := h;
      step := 3;
      complete := true;
    }

    method Step(input: Option<Frame>, ephemeral: nat, room: Option<nat>) returns (code: Code, output: Frame)
      modifies this
      ensures Result(View(), code, output) == HandshakeStep(old(View()), input, ephemeral, room)
    {
      if complete {
        return BadInput, NO_OUTPUT;
      }
      if isInitiator {
        match step
        case 0 => code, output := StepWriteOne(ephemeral, room);
        case 1 => code, output := StepReadTwo(input);
        case 2 => code, output := StepWriteThree(room);
        case _ => return BadInput, NO_OUTPUT;
      } else {
        match step
        case 0 => code, output := StepReadOne(input);
        case 1 => code, output := StepWriteTwo(ephemeral, room);
        case 2 => code, output := StepReadThree(input);
        case _ => return BadInput, NO_OUTPUT;
      }
    }

    method StepWriteOne(ephemeral: nat, room: Option<nat>) returns (code: Code, output: Frame)
      modifies this
      ensures Result(View(), code, output)
              == WriteOne(old(View()), ephemeral, if room.Some? then room.value else 0)
    {
      if room.None? || room.value < 32 {
        return BadInput, NO_OUTPUT;
      }
      localEphemeral := Public(ephemeral);
      sendKey := Scalar(ephemeral);
      hash := MixHash(hash, localEphemeral);
      step := 1;
      return Ok, Frame(32, localEphemeral, Empty, Empty);
    }

    method StepReadOne(input: Option<Frame>) returns (code: Code, output: Frame)
      modifies this
      ensures Result(View(), code, output) == ReadOne(old(View()), if input.Some? then input.value else NO_OUTPUT)
    {
      if input.None? || input.value.length < 32 {
        return BadInput, NO_OUTPUT;
      }
      remoteEphemeral := input.value.pub;
      hash := MixHash(hash, remoteEphemeral);
      step := 1;
      return Ok, NO_OUTPUT;
    }

    method StepReadTwo(input: Option<Frame>) returns (code: Code, output: Frame)
      modifies this
      ensures Result(View(), code, output) == ReadTwo(old(View()), if input.Some? then input.value else NO_OUTPUT)
    {
      hide X25519, MixKey, Split, Open, Seal, ReadTrailing;
      if input.None? || input.value.length < 80 {
        return BadInput, NO_OUTPUT;
      }
      var frame := input.value;
      remoteEphemeral := frame.pub;
      var h := MixHash(hash, remoteEphemeral);
      var dh := X25519(sendKey, remoteEphemeral);
      if dh.None? {
        return BadKey, NO_OUTPUT;
      }
      var keys := MixKey(ck, dh.value);
      var ok, h1, peer := DecryptAndHash(h, keys.second, frame.cipher);
      if !ok {
        return BadSig, NO_OUTPUT;
      }
      remoteStatic := peer;
      dh := X25519(sendKey, remoteStatic);
      if dh.None? {
        return BadKey, NO_OUTPUT;
      }
      keys := MixKey(keys.first, dh.value);
      var read, h2 := ReadPayload(h1, keys.second, frame, 80);
      if read != Ok {
        return read, NO_OUTPUT;
      }
      sendKey := keys.second;
      ck := keys.first;
      hash := h2;
      step := 2;
      return Ok, NO_OUTPUT;
    }

    method StepWriteTwo(ephemeral: nat, room: Option<nat>) returns (code: Code, output: Frame)
      modifies this
      ensures Result(View(), code, output)
              == WriteTwo(old(View()), ephemeral, if room.Some? then room.value else 0)
    {
      hide X25519, MixKey, Split, Open, Seal;
      if room.None? || room.value < 80 {
        return BadInput, NO_OUTPUT;
      }
      localEphemeral := Public(ephemeral);
      recvKey := Scalar(ephemeral);
      var h := MixHash(hash, localEphemeral);
      var dh := X25519(recvKey, remoteEphemeral);
      if dh.None? {
        return BadKey, NO_OUTPUT;
      }
      var keys := MixKey(ck, dh.value);
      var ok, h1, cipher := EncryptAndHash(h, keys.second, localStaticPub);
      if !ok {
        return Internal, NO_OUTPUT;
      }
      dh := X25519(localStatic, remoteEphemeral);
      if dh.None? {
        return BadKey, NO_OUTPUT;
      }
      keys := MixKey(keys.first, dh.value);
      sendKey := keys.second;
      ck := keys.first;
      hash := h1;
      step := 2;
      return Ok, Frame(80, localEphemeral, cipher, Empty);
    }

    method StepWriteThree(room: Option<nat>) returns (code: Code, output: Frame)
      modifies this
      ensures Result(View(), code, output) == WriteThree(old(View()), if room.Some? then room.value else 0)
    {
      hide X25519, MixKey, Split, Open, Seal;
      if room.None? || room.value < 48 {
        return BadInput, NO_OUTPUT;
      }
      var ok, h, cipher := EncryptAndHash(hash, sendKey, localStaticPub);
      if !ok {
        return Internal, NO_OUTPUT;
      }
      var dh := X25519(localStatic, remoteEphemeral);
      if dh.None? {
        return BadKey, NO_OUTPUT;
      }
      ck := MixKey(ck, dh.value).first;
      var transport := Split(ck);
      Finish(h, transport.first, transport.second);
      return Ok, Frame(48, Empty, cipher, Empty);
    }

    method StepReadThree(input: Option<Frame>) returns (code: Code, output: Frame)
      modifies this
      ensures Result(View(), code, output) == ReadThree(old(View()), if input.Some? then input.value else NO_OUTPUT)
    {
      hide X25519, MixKey, Split, Open, Seal, ReadTrailing;
      if input.None? || input.value.length < 48 {
        return BadInput, NO_OUTPUT;
      }
      var frame := input.value;
      var ok, h, peer := DecryptAndHash(hash, sendKey, frame.cipher);
      if !ok {
        return BadSig, NO_OUTPUT;
      }
      remoteStatic := peer;
      var dh := X25519(recvKey, remoteStatic);
      if dh.None? {
        return BadKey, NO_OUTPUT;
      }
      var keys := MixKey(ck, dh.value);
      var read, h1 := ReadPayload(h, keys.second, frame, 48);
      if read != Ok {
        return read, NO_OUTPUT;
      }
      var transport := Split(keys.first);
      ck := keys.first;
      Finish(h1, transport.second, transport.first);
      return Ok, NO_OUTPUT;
    }

    method Send(plain: Term, plainLength: nat, room: nat) returns (code: Code, cipher: Term)
      modifies this`sendNonce
      ensures (View(), code, cipher) == SendStep(old(View()), plain, plainLength, room)
    {
      if !complete || room < plainLength + 16 {
        return BadInput, Empty;
      }
      var c := Seal(sendKey, sendNonce, Empty, plain);
      if c.None? {
        return Internal, Empty;
      }
      sendNonce := sendNonce + 1;
      return Ok, c.value;
    }

    method Recv(cipher: Term, cipherLength: nat) returns (code: Code, plain: Term)
      modifies this`recvNonce
      ensures (View(), code, plain) == RecvStep(old(View()), cipher, cipherLength)
    {
      if !complete || cipherLength < 16 {
        return BadInput, Empty;
      }
      var p := Open(recvKey, recvNonce, Empty, cipher);
      if p.None? {
        return BadSig, Empty;
      }
      recvNonce := recvNonce + 1;
      return Ok, p.value;
    }
  }
}
