/**
  Who a session is talking to, over a network that can derive whatever the primitives allow: it computes with every
  string it has, draws scalars of its own, and has no scalar of an honest session.
 */
module NoiseAuthentication {
  import opened NoiseProofs
  import opened NoiseSpec
  import opened Prelude

  // ---------------------------------------------------------------- what the network can derive

  /** What the network can derive from the honest ciphertexts on the wire, decided by the form of the string. */
  predicate Known(t: Term, honest: set<nat>, wire: set<Term>)
    decreases t
  {
    match t
    case Scalar(id) => id !in honest
    case Shared(lo, hi) => lo !in honest || hi !in honest
    case SharedWith(secret, point) => Known(secret, honest, wire) && Known(point, honest, wire)
    case MixHash(before, data) => Known(before, honest, wire) && Known(data, honest, wire)
    case Hmac(key, data) => Known(key, honest, wire) && Known(data, honest, wire)
    case Two(prefix) => Known(prefix, honest, wire)
    case Sealed(key, _, ad, plain) =>
      t in wire || (Known(key, honest, wire) && Known(ad, honest, wire) && Known(plain, honest, wire))
    case _ => true
  }

  /** How the network comes by a string: it was public or its own to begin with, it was on the wire, or it follows from
      strings it had before by one of the primitives. */
  datatype Origin =
    | Initial
    | Observed
    | Dh(secret: nat, point: nat)
    | Mac(key: nat, data: nat)
    | Hash(before: nat, data: nat)
    | Append(prefix: nat)
    | Seals(sealKey: nat, ad: nat, plain: nat)
    | Opens(openKey: nat, cipher: nat)

  predicate IsInitial(t: Term, honest: set<nat>) {
    match t
    case Scalar(id) => id !in honest
    case Empty => true
    case Protocol => true
    case Opaque(_) => true
    case Public(_) => true
    case LowOrder(_) => true
    case One => true
    case _ => false
  }

  predicate Follows(terms: seq<Term>, i: nat, origin: Origin, honest: set<nat>, wire: set<Term>)
    requires i < |terms|
  {
    match origin
    case Initial => IsInitial(terms[i], honest)
    case Observed => terms[i] in wire
    case Dh(s, p) => s < i && p < i && X25519(terms[s], terms[p]) == Some(terms[i])
    case Mac(k, d) => k < i && d < i && terms[i] == Hmac(terms[k], terms[d])
    case Hash(b, d) => b < i && d < i && terms[i] == MixHash(terms[b], terms[d])
    case Append(p) => p < i && terms[i] == Two(terms[p])
    case Seals(k, a, p) =>
      k < i && a < i && p < i && terms[i].Sealed?
      && terms[i].sealKey == terms[k] && terms[i].ad == terms[a] && terms[i].plain == terms[p]
    case Opens(k, c) =>
      k < i && c < i && terms[c].Sealed? && terms[c].sealKey == terms[k] && terms[c].plain == terms[i]
  }

  ghost predicate Derivation(terms: seq<Term>, origins: seq<Origin>, honest: set<nat>, wire: set<Term>) {
    |origins| == |terms| && forall i: nat | i < |terms| :: Follows(terms, i, origins[i], honest, wire)
  }

  /** Ciphertexts on the wire hold nothing the network could not know anyway, if it can open them. */
  ghost predicate WireHoldsNoSecrets(honest: set<nat>, wire: set<Term>) {
    forall c :: c in wire ==> c.Sealed? && Known(c.plain, honest, wire)
  }

  /** Nothing else can be derived, in any number of steps. */
  lemma {:induction false} DerivedIsKnown(terms: seq<Term>, origins: seq<Origin>, honest: set<nat>, wire: set<Term>, i: nat)
    requires Derivation(terms, origins, honest, wire) && WireHoldsNoSecrets(honest, wire) && i < |terms|
    ensures Known(terms[i], honest, wire)
    decreases i
  {
    assert Follows(terms, i, origins[i], honest, wire);
    match origins[i]
    case Initial =>
    case Observed =>
    case Dh(s, p) =>
      DerivedIsKnown(terms, origins, honest, wire, s);
      DerivedIsKnown(terms, origins, honest, wire, p);
    case Mac(k, d) =>
      DerivedIsKnown(terms, origins, honest, wire, k);
      DerivedIsKnown(terms, origins, honest, wire, d);
    case Hash(b, d) =>
      DerivedIsKnown(terms, origins, honest, wire, b);
      DerivedIsKnown(terms, origins, honest, wire, d);
    case Append(p) =>
      DerivedIsKnown(terms, origins, honest, wire, p);
    case Seals(k, a, p) =>
      DerivedIsKnown(terms, origins, honest, wire, k);
      DerivedIsKnown(terms, origins, honest, wire, a);
      DerivedIsKnown(terms, origins, honest, wire, p);
    case Opens(k, c) =>
      DerivedIsKnown(terms, origins, honest, wire, c);
  }

  ghost predicate Derivable(t: Term, honest: set<nat>, wire: set<Term>) {
    exists terms: seq<Term>, origins: seq<Origin> ::
      Derivation(terms, origins, honest, wire) && terms != [] && terms[|terms| - 1] == t
  }

  function Shifted(o: Origin, n: nat): Origin {
    match o
    case Initial => Initial
    case Observed => Observed
    case Dh(s, p) => Dh(s + n, p + n)
    case Mac(k, d) => Mac(k + n, d + n)
    case Hash(b, d) => Hash(b + n, d + n)
    case Append(p) => Append(p + n)
    case Seals(k, a, p) => Seals(k + n, a + n, p + n)
    case Opens(k, c) => Opens(k + n, c + n)
  }

  lemma FollowsBehind(before: seq<Term>, terms: seq<Term>, after: seq<Term>, i: nat, o: Origin, honest: set<nat>, wire: set<Term>)
    requires i < |terms| && Follows(terms, i, o, honest, wire)
    ensures Follows(before + terms + after, |before| + i, Shifted(o, |before|), honest, wire)
  {
    hide X25519;
    var all := before + terms + after;
    assert forall j: nat | j < |terms| :: all[j + |before|] == terms[j];
  }

  lemma FollowsStill(terms: seq<Term>, after: seq<Term>, i: nat, o: Origin, honest: set<nat>, wire: set<Term>)
    requires i < |terms| && Follows(terms, i, o, honest, wire)
    ensures Follows(terms + after, i, o, honest, wire)
  {
    hide X25519;
    assert forall j: nat | j < |terms| :: (terms + after)[j] == terms[j];
  }

  /** One derivation of two derivable strings. */
  lemma Together(a: Term, b: Term, honest: set<nat>, wire: set<Term>)
    returns (terms: seq<Term>, origins: seq<Origin>, i: nat, j: nat)
    requires Derivable(a, honest, wire) && Derivable(b, honest, wire)
    ensures Derivation(terms, origins, honest, wire)
    ensures i < |terms| && terms[i] == a && j < |terms| && terms[j] == b
  {
    hide Follows;
    var ta: seq<Term>, oa: seq<Origin> :| Derivation(ta, oa, honest, wire) && ta != [] && ta[|ta| - 1] == a;
    var tb: seq<Term>, ob: seq<Origin> :| Derivation(tb, ob, honest, wire) && tb != [] && tb[|tb| - 1] == b;
    terms, i, j := ta + tb, |ta| - 1, |ta| + |tb| - 1;
    var shifted := seq(|ob|, k requires 0 <= k < |ob| => Shifted(ob[k], |ta|));
    origins := oa + shifted;
    forall k: nat | k < |terms| ensures Follows(terms, k, origins[k], honest, wire) {
      if k < |ta| {
        FollowsStill(ta, tb, k, oa[k], honest, wire);
      } else {
        FollowsBehind(ta, tb, [], k - |ta|, ob[k - |ta|], honest, wire);
        assert ta + tb + [] == ta + tb;
      }
    }
  }

  /** A string that follows from the strings of a derivation. */
  lemma OneMore(terms: seq<Term>, origins: seq<Origin>, t: Term, o: Origin, honest: set<nat>, wire: set<Term>)
    requires Derivation(terms, origins, honest, wire) && Follows(terms + [t], |terms|, o, honest, wire)
    ensures Derivable(t, honest, wire)
  {
    hide Follows;
    var all, from := terms + [t], origins + [o];
    forall k: nat | k < |all| ensures Follows(all, k, from[k], honest, wire) {
      if k < |terms| {
        FollowsStill(terms, [t], k, origins[k], honest, wire);
      }
    }
    assert Derivation(all, from, honest, wire);
  }

  lemma AtOnce(t: Term, honest: set<nat>, wire: set<Term>)
    requires IsInitial(t, honest) || t in wire
    ensures Derivable(t, honest, wire)
  {
    OneMore([], [], t, if t in wire then Observed else Initial, honest, wire);
  }

  lemma DeriveDh(secret: Term, point: Term, honest: set<nat>, wire: set<Term>)
    requires Derivable(secret, honest, wire) && Derivable(point, honest, wire) && X25519(secret, point).Some?
    ensures Derivable(X25519(secret, point).value, honest, wire)
  {
    hide X25519;
    var terms, origins, i, j := Together(secret, point, honest, wire);
    OneMore(terms, origins, X25519(secret, point).value, Dh(i, j), honest, wire);
  }

  lemma DeriveHash(before: Term, data: Term, honest: set<nat>, wire: set<Term>)
    requires Derivable(before, honest, wire) && Derivable(data, honest, wire)
    ensures Derivable(MixHash(before, data), honest, wire) && Derivable(Hmac(before, data), honest, wire)
  {
    var terms, origins, i, j := Together(before, data, honest, wire);
    OneMore(terms, origins, MixHash(before, data), Hash(i, j), honest, wire);
    OneMore(terms, origins, Hmac(before, data), Mac(i, j), honest, wire);
  }

  lemma DeriveTwo(prefix: Term, honest: set<nat>, wire: set<Term>)
    requires Derivable(prefix, honest, wire)
    ensures Derivable(Two(prefix), honest, wire)
  {
    var terms, origins, i, _ := Together(prefix, prefix, honest, wire);
    OneMore(terms, origins, Two(prefix), Append(i), honest, wire);
  }

  lemma DeriveSeal(key: Term, nonce: nat, ad: Term, plain: Term, honest: set<nat>, wire: set<Term>)
    requires Derivable(key, honest, wire) && Derivable(ad, honest, wire) && Derivable(plain, honest, wire)
    ensures Derivable(Sealed(key, nonce, ad, plain), honest, wire)
  {
    hide Follows;
    var terms, origins, i, j := Together(key, ad, honest, wire);
    var tp: seq<Term>, op: seq<Origin> :| Derivation(tp, op, honest, wire) && tp != [] && tp[|tp| - 1] == plain;
    var all := terms + tp;
    var shifted := seq(|op|, k requires 0 <= k < |op| => Shifted(op[k], |terms|));
    forall k: nat | k < |all| ensures Follows(all, k, (origins + shifted)[k], honest, wire) {
      if k < |terms| {
        FollowsStill(terms, tp, k, origins[k], honest, wire);
      } else {
        FollowsBehind(terms, tp, [], k - |terms|, op[k - |terms|], honest, wire);
        assert terms + tp + [] == terms + tp;
      }
    }
    SealFollows(all, i, j, |all| - 1, Sealed(key, nonce, ad, plain), honest, wire);
    OneMore(all, origins + shifted, Sealed(key, nonce, ad, plain), Seals(i, j, |all| - 1), honest, wire);
  }

  lemma SealFollows(terms: seq<Term>, i: nat, j: nat, k: nat, t: Term, honest: set<nat>, wire: set<Term>)
    requires i < |terms| && j < |terms| && k < |terms|
    requires t.Sealed? && t.sealKey == terms[i] && t.ad == terms[j] && t.plain == terms[k]
    ensures Follows(terms + [t], |terms|, Seals(i, j, k), honest, wire)
  {
  }

  /** A string that the primitives can produce: Diffie-Hellman values in their one form. */
  predicate Proper(t: Term, wire: set<Term>)
    decreases t
  {
    match t
    case Shared(lo, hi) => lo <= hi
    case SharedWith(secret, point) =>
      Proper(secret, wire) && Proper(point, wire) && !point.LowOrder? && !(secret.Scalar? && point.Public?)
    case MixHash(before, data) => Proper(before, wire) && Proper(data, wire)
    case Hmac(key, data) => Proper(key, wire) && Proper(data, wire)
    case Two(prefix) => Proper(prefix, wire)
    case Sealed(key, _, ad, plain) => t in wire || (Proper(key, wire) && Proper(ad, wire) && Proper(plain, wire))
    case _ => true
  }

  lemma {:induction false} KnownIsDerived(t: Term, honest: set<nat>, wire: set<Term>)
    requires Proper(t, wire) && Known(t, honest, wire)
    ensures Derivable(t, honest, wire)
    decreases t
  {
    hide Derivable;
    match t
    case Shared(lo, hi) =>
      var own, other := if lo !in honest then lo else hi, if lo !in honest then hi else lo;
      AtOnce(Scalar(own), honest, wire);
      AtOnce(Public(other), honest, wire);
      DeriveDh(Scalar(own), Public(other), honest, wire);
    case SharedWith(secret, point) =>
      KnownIsDerived(secret, honest, wire);
      KnownIsDerived(point, honest, wire);
      DeriveDh(secret, point, honest, wire);
    case MixHash(before, data) =>
      KnownIsDerived(before, honest, wire);
      KnownIsDerived(data, honest, wire);
      DeriveHash(before, data, honest, wire);
    case Hmac(key, data) =>
      KnownIsDerived(key, honest, wire);
      KnownIsDerived(data, honest, wire);
      DeriveHash(key, data, honest, wire);
    case Two(prefix) =>
      KnownIsDerived(prefix, honest, wire);
      DeriveTwo(prefix, honest, wire);
    case Sealed(key, nonce, ad, plain) =>
      if t in wire {
        AtOnce(t, honest, wire);
      } else {
        KnownIsDerived(key, honest, wire);
        KnownIsDerived(ad, honest, wire);
        KnownIsDerived(plain, honest, wire);
        DeriveSeal(key, nonce, ad, plain, honest, wire);
      }
    case _ => AtOnce(t, honest, wire);
  }

  /** The network can derive exactly what the form of a string says it can. */
  lemma DerivableExactly(t: Term, honest: set<nat>, wire: set<Term>)
    requires Proper(t, wire) && WireHoldsNoSecrets(honest, wire)
    ensures Derivable(t, honest, wire) <==> Known(t, honest, wire)
  {
    hide Derivation, Known, Proper;
    if Known(t, honest, wire) {
      KnownIsDerived(t, honest, wire);
    }
    if Derivable(t, honest, wire) {
      DerivableIsKnown(t, honest, wire);
    }
  }

  lemma DerivableIsKnown(t: Term, honest: set<nat>, wire: set<Term>)
    requires Derivable(t, honest, wire) && WireHoldsNoSecrets(honest, wire)
    ensures Known(t, honest, wire)
  {
    hide Derivation, Known;
    var terms: seq<Term>, origins: seq<Origin> :|
      Derivation(terms, origins, honest, wire) && terms != [] && terms[|terms| - 1] == t;
    DerivedIsKnown(terms, origins, honest, wire, |terms| - 1);
  }

  // ---------------------------------------------------------------- what a finished session has mixed

  /** The three Diffie-Hellman values of a session, in the order they were mixed. */
  ghost predicate Mixed(s: State, ephemeral: nat) {
    var ee := X25519(Scalar(ephemeral), s.remoteEphemeral);
    var es := if s.isInitiator then X25519(Scalar(ephemeral), s.remoteStatic) else X25519(s.localStatic, s.remoteEphemeral);
    var se := if s.isInitiator then X25519(s.localStatic, s.remoteEphemeral) else X25519(Scalar(ephemeral), s.remoteStatic);
    && s.localEphemeral == Public(ephemeral)
    && ee.Some? && es.Some? && se.Some?
    && s.ck == MixKey(MixKey(MixKey(Protocol, ee.value).first, es.value).first, se.value).first
  }

  ghost predicate HasMixed(s: State) {
    exists ephemeral: nat :: Mixed(s, ephemeral)
  }

  lemma FinishMixes(s: State, call: Call, isInitiator: bool, staticId: nat)
    requires Knowledge(s, isInitiator, staticId) && s.step == 2 && Next(s, call).complete
    ensures HasMixed(Next(s, call))
  {
    hide X25519, MixKey, Split;
    var s' := Next(s, call);
    if isInitiator {
      var m: Second :| HeardTwo(s, m);
      assert Mixed(s', m.ephemeral);
    } else {
      var m: Second :| SpokeTwo(s, m);
      assert Mixed(s', m.ephemeral);
    }
  }

  lemma FinishedFromTwo(s: State, call: Call)
    requires !s.complete && Next(s, call).complete
    ensures s.step == 2
  {
    hide X25519, MixKey, Split;
  }

  lemma NextMixed(s: State, call: Call, isInitiator: bool, staticId: nat)
    requires Knowledge(s, isInitiator, staticId) && (s.complete ==> HasMixed(s))
    ensures Next(s, call).complete ==> HasMixed(Next(s, call))
  {
    hide X25519, MixKey, Split, HeardTwo, SpokeTwo;
    if s.complete {
      var e: nat :| Mixed(s, e);
      assert Mixed(Next(s, call), e);
    } else if Next(s, call).complete {
      FinishedFromTwo(s, call);
      FinishMixes(s, call, isInitiator, staticId);
    }
  }

  lemma {:induction false} AfterMixed(isInitiator: bool, staticId: nat, theirs: Term, calls: seq<Call>)
    ensures var s := After(Fresh(isInitiator, staticId, theirs), calls); s.complete ==> HasMixed(s)
  {
    hide Next, HasMixed, Knowledge;
    if calls != [] {
      var start, prefix := Fresh(isInitiator, staticId, theirs), calls[..|calls| - 1];
      AfterMixed(isInitiator, staticId, theirs, prefix);
      AfterKnowledge(isInitiator, staticId, theirs, prefix);
      NextMixed(After(start, prefix), calls[|calls| - 1], isInitiator, staticId);
    }
  }

  lemma ReachableMixed(s: State, isInitiator: bool, staticId: nat)
    requires Reachable(s, isInitiator, staticId) && s.complete
    ensures HasMixed(s)
  {
    hide HasMixed, After;
    var theirs: Term, calls: seq<Call> :| s == After(Fresh(isInitiator, staticId, theirs), calls);
    AfterMixed(isInitiator, staticId, theirs, calls);
  }

  // ---------------------------------------------------------------- equal keys mean the same handshake

  lemma ChainInjective(a1: Term, a2: Term, a3: Term, b1: Term, b2: Term, b3: Term)
    requires MixKey(MixKey(MixKey(Protocol, a1).first, a2).first, a3).first
             == MixKey(MixKey(MixKey(Protocol, b1).first, b2).first, b3).first
    ensures a1 == b1 && a2 == b2 && a3 == b3
  {
  }

  /** Sessions with different ephemeral scalars share a first value only if each holds the other's key. */
  lemma EphemeralsMeet(e: nat, point: Term, e': nat, point': Term)
    requires e != e' && X25519(Scalar(e), point).Some? && X25519(Scalar(e), point) == X25519(Scalar(e'), point')
    ensures point == Public(e') && point' == Public(e)
  {
  }

  /** A value shared with an honest key pair names that key pair. */
  lemma StaticMeets(e: nat, point: Term, other: nat)
    requires X25519(Scalar(e), point).Some? && X25519(Scalar(e), point) == X25519(Scalar(other), Public(e))
    ensures point == Public(other)
  {
  }

  /** An initiator and a responder that finished with one chaining key, from different ephemeral keys, finished with
      each other. */
  lemma EqualChainsMatch(i: State, staticI: nat, r: State, staticR: nat)
    requires Reachable(i, true, staticI) && i.complete && Reachable(r, false, staticR) && r.complete
    requires i.ck == r.ck && i.localEphemeral != r.localEphemeral
    ensures Matched(i, r)
  {
    hide X25519, MixKey, Reachable;
    ReachableKnowledge(i, true, staticI);
    ReachableKnowledge(r, false, staticR);
    ReachableMixed(i, true, staticI);
    ReachableMixed(r, false, staticR);
    var e: nat :| Mixed(i, e);
    var e': nat :| Mixed(r, e');
    ChainInjective(X25519(Scalar(e), i.remoteEphemeral).value, X25519(Scalar(e), i.remoteStatic).value,
                   X25519(i.localStatic, i.remoteEphemeral).value, X25519(Scalar(e'), r.remoteEphemeral).value,
                   X25519(r.localStatic, r.remoteEphemeral).value, X25519(Scalar(e'), r.remoteStatic).value);
    EphemeralsMeet(e, i.remoteEphemeral, e', r.remoteEphemeral);
    StaticMeets(e, i.remoteStatic, staticR);
    StaticMeets(e', r.remoteStatic, staticI);
    SplitKeysDiffer(i.ck);
  }

  // ---------------------------------------------------------------- honest traffic

  /** One ciphertext put on the wire by an honest session. */
  datatype Emission = Emission(state: State, isInitiator: bool, staticId: nat, call: Call)

  ghost predicate Honest(e: Emission, honest: set<nat>) {
    Reachable(e.state, e.isInitiator, e.staticId) && e.staticId in honest && Emits(e.state, e.call).Some?
  }

  ghost function Wire(emissions: seq<Emission>): set<Term> {
    set k | 0 <= k < |emissions| && Emits(emissions[k].state, emissions[k].call).Some?
      :: Emits(emissions[k].state, emissions[k].call).value
  }

  /** All of it was put there by honest sessions, and none of what they send says more than the network may know: a
      handshake ciphertext holds a public key, so this speaks of application data only. */
  ghost predicate HonestTraffic(emissions: seq<Emission>, honest: set<nat>) {
    && (forall k :: 0 <= k < |emissions| ==> Honest(emissions[k], honest))
    && WireHoldsNoSecrets(honest, Wire(emissions))
  }

  /** The key of a session that has its own ephemeral key and names an honest peer is out of reach. */
  lemma TransportKeysSecret(s: State, isInitiator: bool, staticId: nat, peer: nat, honest: set<nat>, wire: set<Term>)
    requires Reachable(s, isInitiator, staticId) && s.complete
    requires s.localEphemeral.Public? && s.localEphemeral.id in honest
    requires s.remoteStatic == Public(peer) && peer in honest
    ensures !Known(s.sendKey, honest, wire) && !Known(s.recvKey, honest, wire)
  {
    hide Reachable;
    ReachableKnowledge(s, isInitiator, staticId);
    ReachableMixed(s, isInitiator, staticId);
    var e: nat :| Mixed(s, e);
    var dh := X25519(Scalar(e), s.remoteStatic).value;
    assert !Known(dh, honest, wire);
    hide X25519;
    var ee := X25519(Scalar(e), s.remoteEphemeral).value;
    if isInitiator {
      ChainSecret(ee, dh, X25519(s.localStatic, s.remoteEphemeral).value, honest, wire);
    } else {
      ChainSecret(ee, X25519(s.localStatic, s.remoteEphemeral).value, dh, honest, wire);
    }
    SplitSecret(s.ck, honest, wire);
  }

  /** A chaining key is as secret as the most secret value mixed into it, and the keys derived from it as secret as it is. */
  lemma ChainSecret(d1: Term, d2: Term, d3: Term, honest: set<nat>, wire: set<Term>)
    ensures Known(MixKey(MixKey(MixKey(Protocol, d1).first, d2).first, d3).first, honest, wire)
            <==> Known(d1, honest, wire) && Known(d2, honest, wire) && Known(d3, honest, wire)
  {
    MixKnown(Protocol, d1, honest, wire);
    MixKnown(MixKey(Protocol, d1).first, d2, honest, wire);
    MixKnown(MixKey(MixKey(Protocol, d1).first, d2).first, d3, honest, wire);
  }

  lemma MixKnown(ck: Term, dh: Term, honest: set<nat>, wire: set<Term>)
    ensures var k := MixKey(ck, dh);
            && (Known(k.first, honest, wire) <==> Known(ck, honest, wire) && Known(dh, honest, wire))
            && (Known(k.second, honest, wire) <==> Known(ck, honest, wire) && Known(dh, honest, wire))
  {
  }

  lemma SplitSecret(ck: Term, honest: set<nat>, wire: set<Term>)
    ensures var k := Split(ck);
            && (Known(k.first, honest, wire) <==> Known(ck, honest, wire))
            && (Known(k.second, honest, wire) <==> Known(ck, honest, wire))
  {
    MixKnown(ck, Empty, honest, wire);
  }

  // ---------------------------------------------------------------- what an emission is, by its key

  lemma SendsUnderTransportKey(s: State, call: Call, isInitiator: bool, staticId: nat)
    requires Knowledge(s, isInitiator, staticId) && call.Send? && Emits(s, call).Some?
    ensures var c := Emits(s, call).value;
            s.complete && c.Sealed? && c.plain == call.plain && c.sealKey == s.sendKey
            && TransportKey(s.sendKey, isInitiator)
            && s.sendKey == if isInitiator then Split(s.ck).first else Split(s.ck).second
  {
    hide Split;
  }

  /** A handshake ciphertext of an initiator is its message 3, under a key of the second mix. */
  lemma InitiatorWritesThree(s: State, call: Call, staticId: nat)
    requires Knowledge(s, true, staticId) && call.Handshake? && Emits(s, call).Some?
    ensures var room := if call.room.Some? then call.room.value else 0;
            var c := Emits(s, call).value;
            s.step == 2 && WriteThree(s, room).code == Ok && c == WriteThree(s, room).output.cipher
            && c.Sealed? && SecondKey(c.sealKey) && c.plain == Public(staticId)
  {
    hide X25519, MixKey;
    var m: Second :| HeardTwo(s, m);
    var ee, es := X25519(Scalar(m.ephemeral), s.remoteEphemeral), X25519(Scalar(m.ephemeral), s.remoteStatic);
    X25519NotEmpty(Scalar(m.ephemeral), s.remoteStatic);
    assert s.sendKey == MixKey(MixKey(Protocol, ee.value).first, es.value).second;
  }

  lemma ResponderWritesTwo(s: State, call: Call, staticId: nat)
    requires Knowledge(s, false, staticId) && call.Handshake? && Emits(s, call).Some?
    ensures var c := Emits(s, call).value; c.Sealed? && FirstKey(c.sealKey) && c.plain == Public(staticId)
  {
    hide X25519, MixKey;
    X25519NotEmpty(Scalar(call.ephemeral), s.remoteEphemeral);
    var ee := X25519(Scalar(call.ephemeral), s.remoteEphemeral);
    assert FirstKey(MixKey(Protocol, ee.value).second);
  }

  lemma KindsOfKeysDiffer(k: Term)
    ensures !(SecondKey(k) && FirstKey(k)) && !(SecondKey(k) && TransportKey(k, true)) && !(SecondKey(k) && TransportKey(k, false))
    ensures !(FirstKey(k) && TransportKey(k, true)) && !(FirstKey(k) && TransportKey(k, false))
    ensures !(TransportKey(k, true) && TransportKey(k, false))
  {
  }

  lemma SplitInjective(ck: Term, ck': Term)
    requires Split(ck).first == Split(ck').first || Split(ck).second == Split(ck').second
    ensures ck == ck'
  {
  }

  lemma OnWire(emissions: seq<Emission>, c: Term) returns (k: nat)
    requires c in Wire(emissions)
    ensures k < |emissions| && Emits(emissions[k].state, emissions[k].call) == Some(c)
  {
    k :| 0 <= k < |emissions| && Emits(emissions[k].state, emissions[k].call) == Some(c);
  }

  // ---------------------------------------------------------------- authentication by the transport

  /** No session of the other role drew the same ephemeral key. */
  ghost predicate OwnEphemeral(s: State, emissions: seq<Emission>) {
    forall k :: 0 <= k < |emissions| && emissions[k].isInitiator != s.isInitiator
                ==> emissions[k].state.localEphemeral != s.localEphemeral
  }

  /** Emission k is the message of the peer this session finished its handshake with. */
  ghost predicate FromPeer(e: Emission, s: State, peer: nat, cipher: Term, plain: Term) {
    && e.isInitiator != s.isInitiator && e.staticId == peer
    && e.call.Send? && e.call.plain == plain && Emits(e.state, e.call) == Some(cipher)
    && if s.isInitiator then Matched(s, e.state) else Matched(e.state, s)
  }

  /** Whatever the network derives: a transport message that a finished session accepts, when that session names an
      honest static key and has its own ephemeral key, was sent with that plaintext by a session of the named peer that
      finished the very same handshake. */
  lemma TransportAuthenticates(s: State, isInitiator: bool, staticId: nat, peer: nat, emissions: seq<Emission>,
                               honest: set<nat>, cipher: Term, length: nat)
    requires Reachable(s, isInitiator, staticId) && s.complete
    requires s.localEphemeral.Public? && s.localEphemeral.id in honest
    requires s.remoteStatic == Public(peer) && peer in honest
    requires HonestTraffic(emissions, honest) && OwnEphemeral(s, emissions)
    requires Known(cipher, honest, Wire(emissions)) && RecvStep(s, cipher, length).1 == Ok
    ensures exists k :: 0 <= k < |emissions| && FromPeer(emissions[k], s, peer, cipher, RecvStep(s, cipher, length).2)
  {
    hide Reachable, Wire, Emits, Matched, TransportKey, SecondKey, FirstKey, Knowledge;
    TransportKeysSecret(s, isInitiator, staticId, peer, honest, Wire(emissions));
    assert cipher.sealKey == s.recvKey;
    var k := OnWire(emissions, cipher);
    var e := emissions[k];
    assert Honest(e, honest);
    FinishedKeys(s, isInitiator, staticId);
    ReachableKnowledge(e.state, e.isInitiator, e.staticId);
    EmissionIsPeers(s, isInitiator, staticId, e, cipher);
    if isInitiator {
      EqualChainsMatch(s, staticId, e.state, e.staticId);
    } else {
      EqualChainsMatch(e.state, e.staticId, s, staticId);
    }
    NamesPeer(s, isInitiator, e.state, e.staticId, e.isInitiator, peer);
  }

  lemma FinishedKeys(s: State, isInitiator: bool, staticId: nat)
    requires Reachable(s, isInitiator, staticId) && s.complete
    ensures s.isInitiator == isInitiator && TransportKey(s.recvKey, !isInitiator)
    ensures s.recvKey == if isInitiator then Split(s.ck).second else Split(s.ck).first
  {
    hide Split, Reachable;
    ReachableKnowledge(s, isInitiator, staticId);
  }

  lemma EmissionIsPeers(s: State, isInitiator: bool, staticId: nat, e: Emission, cipher: Term)
    requires Knowledge(e.state, e.isInitiator, e.staticId) && Emits(e.state, e.call) == Some(cipher)
    requires cipher.Sealed? && cipher.sealKey == s.recvKey && TransportKey(s.recvKey, !isInitiator)
    requires s.recvKey == if isInitiator then Split(s.ck).second else Split(s.ck).first
    ensures e.isInitiator != isInitiator && e.call.Send? && e.call.plain == cipher.plain
    ensures e.state.complete && e.state.ck == s.ck && e.state.isInitiator == e.isInitiator
  {
    hide SecondKey, FirstKey, Split, HeardTwo, SpokeTwo;
    KindsOfKeysDiffer(s.recvKey);
    match e.call
    case Handshake(_, _, _) =>
      if e.isInitiator {
        InitiatorWritesThree(e.state, e.call, e.staticId);
      } else {
        ResponderWritesTwo(e.state, e.call, e.staticId);
      }
      assert false;
    case Send(_, _, _) =>
      SendsUnderTransportKey(e.state, e.call, e.isInitiator, e.staticId);
      SplitInjective(s.ck, e.state.ck);
    case Receive(_, _) =>
  }

  lemma NamesPeer(s: State, isInitiator: bool, other: State, otherId: nat, otherRole: bool, peer: nat)
    requires if isInitiator then Matched(s, other) else Matched(other, s)
    requires Knowledge(other, otherRole, otherId) && s.remoteStatic == Public(peer)
    ensures otherId == peer
  {
    hide HeardTwo, SpokeTwo, Split;
  }

  // ---------------------------------------------------------------- authentication by message 3

  /** The ephemeral key that came in message 1 is one of the network's own. */
  predicate NetworksOwn(point: Term, honest: set<nat>) {
    point.Public? && point.id !in honest
  }

  /** The key that opens message 3 can be derived exactly when the ephemeral key in message 1 was the network's own: the
      static key named in message 3 has no part in it. */
  lemma ThirdMessageExactly(r: State, staticR: nat, honest: set<nat>, wire: set<Term>)
    requires Reachable(r, false, staticR) && r.step == 2 && staticR in honest
    requires r.localEphemeral.Public? && r.localEphemeral.id in honest && WireHoldsNoSecrets(honest, wire)
    ensures Derivable(r.sendKey, honest, wire) <==> NetworksOwn(r.remoteEphemeral, honest)
    ensures Known(r.sendKey, honest, wire) <==> NetworksOwn(r.remoteEphemeral, honest)
  {
    hide Reachable, MixKey, Derivable;
    ReachableKnowledge(r, false, staticR);
    var m: Second :| SpokeTwo(r, m);
    var ee, es := X25519(Scalar(m.ephemeral), r.remoteEphemeral).value, X25519(r.localStatic, r.remoteEphemeral).value;
    MixKnown(Protocol, ee, honest, wire);
    MixKnown(MixKey(Protocol, ee).first, es, honest, wire);
    if NetworksOwn(r.remoteEphemeral, honest) {
      MixProper(Protocol, ee, wire);
      MixProper(MixKey(Protocol, ee).first, es, wire);
      KnownIsDerived(r.sendKey, honest, wire);
    } else if Derivable(r.sendKey, honest, wire) {
      DerivableIsKnown(r.sendKey, honest, wire);
    }
  }

  lemma MixProper(ck: Term, dh: Term, wire: set<Term>)
    requires Proper(ck, wire) && Proper(dh, wire)
    ensures var k := MixKey(ck, dh); Proper(k.first, wire) && Proper(k.second, wire)
  {
  }

  /** With an ephemeral key of its own and message 2 before it, the network can seal any static key for message 3. */
  lemma AnyKeyCanBeNamed(r: State, staticR: nat, name: nat, honest: set<nat>, wire: set<Term>)
    requires Reachable(r, false, staticR) && r.step == 2 && staticR in honest
    requires r.localEphemeral.Public? && r.localEphemeral.id in honest && WireHoldsNoSecrets(honest, wire)
    requires NetworksOwn(r.remoteEphemeral, honest) && r.hash.MixHash? && r.hash.data in wire && r.recvNonce != UINT64_MAX
    ensures var frame := Frame(48, Empty, Sealed(r.sendKey, r.recvNonce, r.hash, Public(name)), Empty);
            && Derivable(frame.cipher, honest, wire) && Derivable(frame.rest, honest, wire)
            && ReadThree(r, frame).code == Ok && ReadThree(r, frame).state.remoteStatic == Public(name)
  {
    hide Reachable, MixKey, Derivable, WireHoldsNoSecrets;
    ThirdMessageExactly(r, staticR, honest, wire);
    ReachableKnowledge(r, false, staticR);
    var m: Second :| SpokeTwo(r, m);
    AtOnce(Protocol, honest, wire);
    AtOnce(r.remoteEphemeral, honest, wire);
    AtOnce(r.localEphemeral, honest, wire);
    AtOnce(m.cipher, honest, wire);
    DeriveHash(Protocol, r.remoteEphemeral, honest, wire);
    DeriveHash(MixHash(Protocol, r.remoteEphemeral), r.localEphemeral, honest, wire);
    DeriveHash(MixHash(MixHash(Protocol, r.remoteEphemeral), r.localEphemeral), m.cipher, honest, wire);
    AtOnce(Public(name), honest, wire);
    AtOnce(Empty, honest, wire);
    DeriveSeal(r.sendKey, r.recvNonce, r.hash, Public(name), honest, wire);
  }

  /** Emission k is the message 3 of an initiator that is ready to talk to this responder once it has read the frame. */
  ghost predicate WroteThird(e: Emission, r: State, frame: Frame) {
    && e.isInitiator && e.state.step == 2 && e.call.Handshake?
    && var room := if e.call.room.Some? then e.call.room.value else 0;
    && WriteThree(e.state, room).code == Ok && WriteThree(e.state, room).output.cipher == frame.cipher
    && WriteThree(e.state, room).state.hash == ReadThree(r, frame).state.hash
    && ReadyForTransport(WriteThree(e.state, room).state, ReadThree(r, frame).state)
  }

  /** Where the ephemeral key is not the network's own, a responder that accepts message 3 has a matching initiator
      session of the named static key, with equal hash, keys and counters, and nothing came behind the ciphertext. */
  lemma MessageThreeAuthenticates(r: State, staticR: nat, frame: Frame, emissions: seq<Emission>, honest: set<nat>)
    requires Reachable(r, false, staticR) && r.step == 2 && staticR in honest
    requires r.localEphemeral.Public? && r.localEphemeral.id in honest && !NetworksOwn(r.remoteEphemeral, honest)
    requires HonestTraffic(emissions, honest) && ReadThree(r, frame).code == Ok
    requires Known(frame.cipher, honest, Wire(emissions)) && Known(frame.rest, honest, Wire(emissions))
    ensures frame.length == 48
    ensures exists k :: 0 <= k < |emissions| && WroteThird(emissions[k], r, frame)
                        && frame.cipher.plain == Public(emissions[k].staticId)
  {
    hide Reachable, Wire, Emits, Matched, X25519, MixKey, TransportKey, SecondKey, FirstKey, Known;
    ThirdMessageExactly(r, staticR, honest, Wire(emissions));
    OpensThird(r, frame);
    FromWire(frame.cipher, honest, Wire(emissions));
    var k := OnWire(emissions, frame.cipher);
    var e := emissions[k];
    assert Honest(e, honest);
    ReachableKnowledge(e.state, e.isInitiator, e.staticId);
    ThirdIsInitiators(r, staticR, e, frame.cipher);
    PayloadOutOfReach(r, staticR, e.staticId, frame, emissions, honest);
    var room := if e.call.room.Some? then e.call.room.value else 0;
    AgreementOverNetwork(e.state, e.staticId, room, r, staticR, frame);
  }

  /** A responder can be brought to accept a message 3 that names a key with no initiator session on the wire exactly
      when the ephemeral key in message 1 was the network's own. */
  lemma NamedKeyExactly(r: State, staticR: nat, name: nat, emissions: seq<Emission>, honest: set<nat>)
    requires Reachable(r, false, staticR) && r.step == 2 && staticR in honest
    requires r.localEphemeral.Public? && r.localEphemeral.id in honest
    requires HonestTraffic(emissions, honest) && r.hash.MixHash? && r.hash.data in Wire(emissions)
    requires r.recvNonce != UINT64_MAX
    requires forall k :: 0 <= k < |emissions| && emissions[k].isInitiator ==> emissions[k].staticId != name
    ensures (exists frame: Frame :: Delivers(r, frame, name, honest, Wire(emissions)))
            <==> NetworksOwn(r.remoteEphemeral, honest)
  {
    hide Reachable, Derivable, Wire, Known, ReadThree, ReadyForTransport;
    var wire := Wire(emissions);
    if NetworksOwn(r.remoteEphemeral, honest) {
      AnyKeyCanBeNamed(r, staticR, name, honest, wire);
      assert Delivers(r, Frame(48, Empty, Sealed(r.sendKey, r.recvNonce, r.hash, Public(name)), Empty), name, honest, wire);
    } else if frame: Frame :| Delivers(r, frame, name, honest, wire) {
      DerivableIsKnown(frame.cipher, honest, wire);
      DerivableIsKnown(frame.rest, honest, wire);
      MessageThreeAuthenticates(r, staticR, frame, emissions, honest);
      NamesWhatItHolds(r, frame);
    }
  }

  /** The network can derive this frame, and the responder accepts it and takes the named key for its peer's. */
  ghost predicate Delivers(r: State, frame: Frame, name: nat, honest: set<nat>, wire: set<Term>) {
    && Derivable(frame.cipher, honest, wire) && Derivable(frame.rest, honest, wire)
    && ReadThree(r, frame).code == Ok && ReadThree(r, frame).state.remoteStatic == Public(name)
  }

  lemma NamesWhatItHolds(r: State, frame: Frame)
    requires ReadThree(r, frame).code == Ok
    ensures frame.cipher.Sealed? && ReadThree(r, frame).state.remoteStatic == frame.cipher.plain
  {
  }

  lemma FromWire(c: Term, honest: set<nat>, wire: set<Term>)
    requires c.Sealed? && Known(c, honest, wire) && !Known(c.sealKey, honest, wire)
    ensures c in wire
  {
  }

  lemma OpensThird(r: State, frame: Frame)
    requires ReadThree(r, frame).code == Ok
    ensures Open(r.sendKey, r.recvNonce, r.hash, frame.cipher).Some? && frame.cipher.Sealed? && frame.cipher.sealKey == r.sendKey
  {
  }

  lemma ThirdIsInitiators(r: State, staticR: nat, e: Emission, cipher: Term)
    requires Reachable(r, false, staticR) && r.step == 2
    requires Knowledge(e.state, e.isInitiator, e.staticId) && Emits(e.state, e.call) == Some(cipher)
    requires cipher.Sealed? && cipher.sealKey == r.sendKey
    ensures e.isInitiator && e.call.Handshake? && e.state.step == 2 && cipher.plain == Public(e.staticId)
    ensures var room := if e.call.room.Some? then e.call.room.value else 0;
            WriteThree(e.state, room).code == Ok && WriteThree(e.state, room).output.cipher == cipher
  {
    hide Reachable, Split, X25519, MixKey, WriteThree;
    ReachableKnowledge(r, false, staticR);
    var m: Second :| SpokeTwo(r, m);
    var ee, es := X25519(Scalar(m.ephemeral), r.remoteEphemeral).value, X25519(r.localStatic, r.remoteEphemeral).value;
    X25519NotEmpty(r.localStatic, r.remoteEphemeral);
    assert SecondKey(MixKey(MixKey(Protocol, ee).first, es).second);
    KindsOfKeysDiffer(r.sendKey);
    hide SecondKey, FirstKey, HeardTwo, SpokeTwo;
    match e.call
    case Handshake(_, _, _) =>
      if e.isInitiator {
        InitiatorWritesThree(e.state, e.call, e.staticId);
      } else {
        ResponderWritesTwo(e.state, e.call, e.staticId);
        assert false;
      }
    case Send(_, _, _) =>
      SendsUnderTransportKey(e.state, e.call, e.isInitiator, e.staticId);
      assert false;
    case Receive(_, _) =>
  }

  /** What the network can put behind message 3 was written by an honest session or is not under the payload key. */
  lemma PayloadOutOfReach(r: State, staticR: nat, peer: nat, frame: Frame, emissions: seq<Emission>, honest: set<nat>)
    requires Reachable(r, false, staticR) && r.step == 2
    requires r.localEphemeral.Public? && r.localEphemeral.id in honest && peer in honest
    requires frame.cipher.Sealed? && frame.cipher.plain == Public(peer)
    requires HonestTraffic(emissions, honest) && Known(frame.rest, honest, Wire(emissions))
    ensures HonestCipher(frame.rest)
            || !(frame.rest.Sealed? && PayloadKey(r, frame.cipher.plain) == Some(frame.rest.sealKey))
  {
    hide Reachable, MixKey, Emits, Wire;
    ReachableKnowledge(r, false, staticR);
    var m: Second :| SpokeTwo(r, m);
    var se := X25519(Scalar(m.ephemeral), Public(peer)).value;
    MixKnown(r.ck, se, honest, Wire(emissions));
    assert !Known(se, honest, Wire(emissions));
    if frame.rest in Wire(emissions) {
      var k := OnWire(emissions, frame.rest);
      assert Honest(emissions[k], honest);
      assert HonestCipher(frame.rest);
    }
  }

  // ---------------------------------------------------------------- transport over such a network

  /** What is on the wire while a channel is up: the traffic of all other sessions, the handshake, and the channel's. */
  ghost function Traffic(emissions: seq<Emission>, c: Channel): set<Term> {
    Wire(emissions) + (set x | x in c.toA.wire) + (set x | x in c.toB.wire)
  }

  ghost predicate InReach(emissions: seq<Emission>, honest: set<nat>, c: Channel, e: Event) {
    match e
    case SendFromA(_, _, _) => true
    case SendFromB(_, _, _) => true
    case DeliverToA(cipher, _) => Known(cipher, honest, Traffic(emissions, c))
    case DeliverToB(cipher, _) => Known(cipher, honest, Traffic(emissions, c))
  }

  /** A run of the channel in which the network delivers anything within its reach at the time. */
  ghost predicate NetworkRun(emissions: seq<Emission>, honest: set<nat>, states: seq<Channel>, events: seq<Event>) {
    && |states| == |events| + 1
    && forall k: nat | k < |events| ::
         InReach(emissions, honest, states[k], events[k]) && states[k + 1] == ChannelStep(states[k], events[k])
  }

  /** Other transport traffic comes from sessions with other ephemeral keys. */
  ghost predicate OtherSessions(emissions: seq<Emission>, i: State, r: State) {
    forall k :: 0 <= k < |emissions| && emissions[k].call.Send? ==>
      emissions[k].state.localEphemeral != i.localEphemeral && emissions[k].state.localEphemeral != r.localEphemeral
  }

  ghost predicate SameKeys(c: Channel, i: State, r: State) {
    && c.a.sendKey == i.sendKey && c.a.recvKey == i.recvKey && c.b.sendKey == r.sendKey && c.b.recvKey == r.recvKey
  }

  lemma StepKeepsKeys(c: Channel, e: Event, i: State, r: State)
    requires SameKeys(c, i, r)
    ensures SameKeys(ChannelStep(c, e), i, r)
  {
  }

  /** The peers of a matched pair: honest sessions whose scalars are their own. */
  ghost predicate HonestPair(i: State, staticI: nat, r: State, staticR: nat, honest: set<nat>) {
    && Reachable(i, true, staticI) && Reachable(r, false, staticR) && staticI in honest && staticR in honest
    && i.localEphemeral.Public? && i.localEphemeral.id in honest
    && r.localEphemeral.Public? && r.localEphemeral.id in honest && i.localEphemeral != r.localEphemeral
  }

  /** No other traffic is sealed under the keys of the pair. */
  lemma KeysUnusedElsewhere(i: State, staticI: nat, r: State, staticR: nat, e: Emission, honest: set<nat>)
    requires HonestPair(i, staticI, r, staticR, honest) && Matched(i, r) && Honest(e, honest)
    requires e.call.Send? ==>
               e.state.localEphemeral != i.localEphemeral && e.state.localEphemeral != r.localEphemeral
    ensures var c := Emits(e.state, e.call).value; c.Sealed? && c.sealKey != i.sendKey && c.sealKey != r.sendKey
  {
    hide Reachable, Emits, TransportKey, SecondKey, FirstKey, Knowledge, Split;
    var c := Emits(e.state, e.call).value;
    ReachableKnowledge(e.state, e.isInitiator, e.staticId);
    FinishedKeys(i, true, staticI);
    FinishedKeys(r, false, staticR);
    EmitsUnderSealingKey(e.state, e.call, e.isInitiator, e.staticId);
    if c.sealKey == i.sendKey {
      EmissionIsPeers(r, false, staticR, e, c);
      EqualChainsMatch(e.state, e.staticId, r, staticR);
    }
    if c.sealKey == r.sendKey {
      EmissionIsPeers(i, true, staticI, e, c);
      EqualChainsMatch(i, staticI, e.state, e.staticId);
    }
  }

  /** What is within the network's reach under the keys of the pair has been sent over the channel. */
  lemma ReachIsDeliverable(i: State, staticI: nat, r: State, staticR: nat, emissions: seq<Emission>, honest: set<nat>,
                           c: Channel, cipher: Term)
    requires HonestPair(i, staticI, r, staticR, honest) && Matched(i, r) && OtherSessions(emissions, i, r)
    requires forall k :: 0 <= k < |emissions| ==> Honest(emissions[k], honest)
    requires SameKeys(c, i, r) && Known(cipher, honest, Traffic(emissions, c))
    ensures Deliverable(c, cipher)
  {
    hide Reachable, Wire, Emits;
    if cipher.Sealed? && cipher.sealKey in {c.a.sendKey, c.b.sendKey} {
      var wire := Traffic(emissions, c);
      PairKnowsNames(i, staticI, r, staticR);
      TransportKeysSecret(i, true, staticI, staticR, honest, wire);
      FromWire(cipher, honest, wire);
      if cipher in Wire(emissions) {
        var k := OnWire(emissions, cipher);
        KeysUnusedElsewhere(i, staticI, r, staticR, emissions[k], honest);
      }
    }
  }

  lemma PairKnowsNames(i: State, staticI: nat, r: State, staticR: nat)
    requires Reachable(i, true, staticI) && Reachable(r, false, staticR) && Matched(i, r)
    ensures i.remoteStatic == Public(staticR) && r.remoteStatic == Public(staticI)
  {
    hide Reachable, HeardTwo, SpokeTwo, Split;
    ReachableKnowledge(i, true, staticI);
    ReachableKnowledge(r, false, staticR);
  }

  lemma {:induction false} KeysStay(emissions: seq<Emission>, honest: set<nat>, states: seq<Channel>, events: seq<Event>,
                                    i: State, r: State, k: nat)
    requires NetworkRun(emissions, honest, states, events) && SameKeys(states[0], i, r) && k <= |events|
    ensures SameKeys(states[k], i, r)
  {
    hide InReach, ChannelStep, SameKeys;
    if k > 0 {
      KeysStay(emissions, honest, states, events, i, r, k - 1);
      StepKeepsKeys(states[k - 1], events[k - 1], i, r);
    }
  }

  /** Transport safety over the whole network: between two honest sessions that finished their handshake with each other,
      whatever else goes on and whatever the network derives from all of it, each side has accepted a prefix of what the
      other sent, no key seals twice with one nonce, and the genuine next message is accepted. */
  lemma TransportOverNetwork(i: State, staticI: nat, r: State, staticR: nat, emissions: seq<Emission>, honest: set<nat>,
                             states: seq<Channel>, events: seq<Event>, k: nat, length: nat)
    requires HonestPair(i, staticI, r, staticR, honest) && ReadyForTransport(i, r) && OtherSessions(emissions, i, r)
    requires forall j :: 0 <= j < |emissions| ==> Honest(emissions[j], honest)
    requires NetworkRun(emissions, honest, states, events) && states[0] == OpenChannel(i, r) && k <= |events|
    requires length >= 16
    ensures states[k].toB.accepted <= states[k].toB.sent && states[k].toA.accepted <= states[k].toA.sent
    ensures NoPairTwice(states[k].toB.wire + states[k].toA.wire)
    ensures NextWouldArrive(states[k].toB, states[k].b, length) && NextWouldArrive(states[k].toA, states[k].a, length)
  {
    hide HonestPair, OtherSessions, ChannelStep, Deliverable, Known, Honest, NextWouldArrive, NoPairTwice;
    forall j: nat | j < |events| ensures Allowed(states[j], events[j]) {
      KeysStay(emissions, honest, states, events, i, r, j);
      match events[j]
      case SendFromA(_, _, _) =>
      case SendFromB(_, _, _) =>
      case DeliverToA(cipher, _) => ReachIsDeliverable(i, staticI, r, staticR, emissions, honest, states[j], cipher);
      case DeliverToB(cipher, _) => ReachIsDeliverable(i, staticI, r, staticR, emissions, honest, states[j], cipher);
    }
    assert ChannelRun(states, events);
    hide Allowed, InReach;
    TransportSafety(i, r, states, events, k);
    GenuineNextIsAccepted(i, r, states, events, k, length);
  }
}
