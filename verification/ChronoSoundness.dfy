/**
  What verification proves about a ticking node: what its steps do, and that nothing verifies under its keys but what
  it stamped and attested.
 */
module ChronoSoundness {
  import opened Encoding
  import opened Prelude
  import opened Records
  import opened CalendarSpec
  import opened ChronoSpec
  import opened ChronoProofs

  // ---------------------------------------------------------------- what a step does

  /** An awake node advances by one tick under the new key, a stamp yields exactly the stamp asked for, and the record
      counts it; a dormant node ignores both; the flag is set to what is asked. */
  lemma StepEffects(c: Crypto, states: seq<Chrono>, events: seq<Event>, k: nat)
    requires Run(c, states, events) && k < |events|
    ensures var s, s', e := states[k], states[k + 1], events[k];
            && s'.tbid == s.tbid && s'.tbn == s.tbn
            && (e.SetDormant? ==> s' == s.(dormant := e.dormant))
            && (!e.SetDormant? && s.dormant ==> s' == s)
            && (!e.SetDormant? && !s.dormant ==>
                  && !s'.dormant && s'.currentTick == s.currentTick + 1
                  && |s'.ticks| == |s.ticks| + 1 && s'.ticks[..|s.ticks|] == s.ticks
                  && s'.ticks[|s.ticks|].chrononNumber == s.currentTick + 1
                  && s'.ticks[|s.ticks|].publicKey == e.key && s'.ticks[|s.ticks|].nonce == e.nonce
                  && s'.ticks[|s.ticks|].stampCount == (if e.Stamp? then 1 else 0))
            && (e.DaemonTick? ==> s'.issued == s.issued)
            && (e.Stamp? && !s.dormant ==>
                  && |s'.issued| == |s.issued| + 1 && s'.issued[..|s.issued|] == s.issued
                  && AnswersRequest(c, s, s'.issued[|s.issued|], e.request, s.currentTick + 1, e.key))
  {
    hide TickRecord, Attested, Postcard, HistoryInv, WindowInv, PairSignatures, Advance, KeepTwo, PreviousKey;
    RunKeepsInv(c, states, events, k);
    var s, e := states[k], events[k];
    if !e.SetDormant? && !s.dormant {
      var request := if e.Stamp? then Some(e.request) else None;
      AdvanceShape(c, s, request, e.key, e.nonce);
      RecordFields(c, s.tbid, s.currentTick + 1, PreviousKey(s, e.key), e.key, Requests(request), e.nonce);
      WindowCount(c, s);
    }
  }

  lemma WindowCount(c: Crypto, s: Chrono)
    requires ChronoInv(c, s)
    ensures |s.ticks| == s.currentTick
  {
    hide HistoryInv;
  }

  // ---------------------------------------------------------------- stamps

  /** If this signature verifies under a key of the node, that key did sign the stamp. */
  ghost predicate NoForgedStamp(c: Crypto, s: Chrono, f: ForetisRecord, sig: bytes, algorithm: string) {
    forall key: bytes :: HasKey(s.ticks, key) && c.verify(key, algorithm, Postcard(f), sig) == Valid
                         ==> SignedBy(s, key, Postcard(f))
  }

  ghost predicate WasIssued(c: Crypto, s: Chrono, f: ForetisRecord, content: bytes) {
    exists a :: 0 <= a < |s.issued| && s.issued[a].foretis == f && c.sha256(content) == c.sha256(s.issued[a].content)
  }

  /** What a key of the node signed, if it is the bytes of a stamp, is a stamp that was issued. */
  lemma SignedStampWasIssued(c: Crypto, s: Chrono, key: bytes, f: ForetisRecord)
    requires ChronoInv(c, s) && SignedBy(s, key, Postcard(f))
    ensures exists a :: 0 <= a < |s.issued| && s.issued[a].foretis == f
  {
    hide Postcard, PairBlob, GenesisPairBlob, Hex, WindowInv, HonestTick, GoodStamp;
    var x :| x in s.signed && x.key == key && x.message == Postcard(f);
    assert Explained(c, s, x);
    var n := x.purpose.tick;
    var r, prev := s.ticks[n - 1], s.ticks[if n > 1 then n - 2 else 0];
    match x.purpose
    case StampAt(_) =>
      var j :| 0 <= j < |s.issued| && s.issued[j].foretis.chrononNumber == n && x.message == Postcard(s.issued[j].foretis);
      PostcardInjective(s.issued[j].foretis, f);
    case AttestAt(_) =>
      var identity := c.tbidSign(s.tbid, GenesisBlob(s.tbid, n, r.publicKey));
      StampIsNoAttestation(f, s.tbid, if n == 1 then n else n - 1, if n == 1 then r.publicKey else prev.publicKey,
                           n, r.publicKey, identity, r.stampCount, r.nonce);
      assert false;
  }

  /** Only issued stamps verify: whatever stamp, signature, algorithm and content someone presents, if it verifies
      against the node's calendar then, short of a forgery, the node issued that very stamp for a content with that
      hash. */
  lemma OnlyIssuedStampsVerify(c: Crypto, states: seq<Chrono>, events: seq<Event>, k: nat,
                               f: ForetisRecord, sig: bytes, algorithm: string, content: bytes)
    requires Run(c, states, events) && k <= |events| && NoForgedStamp(c, states[k], f, sig, algorithm)
    requires VerifyStamp(c, f, sig, algorithm, content, GetFrom(states[k].ticks, f.chrononNumber, 1)) == Valid
    ensures WasIssued(c, states[k], f, content)
  {
    hide Next, Postcard, WindowInv, Explained, HonestTick;
    RunKeepsInv(c, states, events, k);
    var s := states[k];
    var at := GetFrom(s.ticks, f.chrononNumber, 1);
    FoundInCalendar(s.ticks, f.chrononNumber, 1, 0);
    assert HasKey(s.ticks, at[0].publicKey);
    hide GetFrom;
    SignedStampWasIssued(c, s, at[0].publicKey, f);
    var a :| 0 <= a < |s.issued| && s.issued[a].foretis == f;
    assert GoodStamp(c, s, s.issued[a]);
  }

  lemma FoundInCalendar(ticks: seq<ChrononRecord>, n: nat, count: nat, i: nat)
    requires i < |GetFrom(ticks, n, count)|
    ensures HasKey(ticks, GetFrom(ticks, n, count)[i].publicKey)
  {
    var r := GetFrom(ticks, n, count)[i];
    assert r in InRange(ticks, n, U64_MAX);
    InRangeMember(ticks, n, U64_MAX, r);
    var j :| 0 <= j < |ticks| && ticks[j] == r;
    assert ticks[j].publicKey == r.publicKey;
  }

  lemma {:induction false} InRangeMember(ticks: seq<ChrononRecord>, lo: nat, hi: nat, r: ChrononRecord)
    requires r in InRange(ticks, lo, hi)
    ensures r in ticks
  {
    if ticks != [] && r in InRange(ticks[1..], lo, hi) {
      InRangeMember(ticks[1..], lo, hi, r);
    }
  }

  /** A stamp of a tick that has not come cannot be verified yet; with a wrong content it is refused at once. */
  lemma FutureStamp(c: Crypto, states: seq<Chrono>, events: seq<Event>, k: nat,
                    f: ForetisRecord, sig: bytes, algorithm: string, content: bytes)
    requires Run(c, states, events) && k <= |events| && f.chrononNumber > states[k].currentTick
    ensures VerifyStamp(c, f, sig, algorithm, content, GetFrom(states[k].ticks, f.chrononNumber, 1))
            == if c.sha256(content) == f.contentHash then Error else Invalid
  {
    hide Next, Postcard, HonestTick, Explained, GoodStamp;
    RunKeepsInv(c, states, events, k);
    var s, n := states[k], f.chrononNumber;
    NumbersAreConsecutive(c, s);
    RangeIsSlice(s.ticks, n, U64_MAX);
    BelowIs(s.ticks, n, |s.ticks|);
  }

  // ---------------------------------------------------------------- keys

  /** If the backward signature of this pair verifies under a key of the node, that key did sign those bytes. */
  ghost predicate NoForgedAdoption(c: Crypto, s: Chrono, prev: ChrononRecord, curr: ChrononRecord) {
    var message := PairMessage(Hex(s.tbid), prev, curr);
    HasKey(s.ticks, curr.publicKey) && c.verify(curr.publicKey, curr.signatureAlgorithm, message, curr.backward) == Valid
    ==> SignedBy(s, curr.publicKey, message)
  }

  /** Nobody can take a key of the node into a chain of their own: a verifying ordinary pair whose second record has the
      key of tick n is, short of a forgery, the node's pair of ticks n - 1 and n. */
  lemma KeyCannotBeAdopted(c: Crypto, states: seq<Chrono>, events: seq<Event>, k: nat, n: nat,
                           prev: ChrononRecord, curr: ChrononRecord)
    requires Correct(c) && Run(c, states, events) && k <= |events| && 1 <= n <= |states[k].ticks|
    requires |prev.publicKey| == 32 && |curr.publicKey| == 32 && curr.publicKey == states[k].ticks[n - 1].publicKey
    requires !IsGenesisPair(curr) && NoForgedAdoption(c, states[k], prev, curr)
    requires VerifyPair(c, Hex(states[k].tbid), prev, curr) == Valid
    ensures n >= 2 && curr.chrononNumber == n && prev.chrononNumber == n - 1
    ensures prev.publicKey == states[k].ticks[n - 2].publicKey
    ensures curr.stampCount == states[k].ticks[n - 1].stampCount && curr.nonce == states[k].ticks[n - 1].nonce
  {
    hide Next, Hex, PairBlob, Postcard, HonestTick, GoodStamp;
    RunKeepsInv(c, states, events, k);
    var s := states[k];
    assert HasKey(s.ticks, curr.publicKey);
    var x :| x in s.signed && x.key == curr.publicKey && x.message == PairMessage(Hex(s.tbid), prev, curr);
    assert Explained(c, s, x);
    hide Explained, VerifyPair;
    OnlySuccessorAttested(c, s, x, prev.chrononNumber, prev.publicKey, curr.chrononNumber, curr.publicKey,
                          curr.stampCount, curr.nonce);
  }

  /** If this identity signature verifies for the node's identity, it is over the node's first tick and key. */
  ghost predicate NoForgedIdentity(c: Crypto, s: Chrono, message: bytes, sig: bytes) {
    c.tbidVerify(s.tbid, message, sig) == Valid ==>
      s.ticks != [] && message == GenesisBlob(s.tbid, 1, s.ticks[0].publicKey)
  }

  /** Nobody can begin a calendar in the node's name: a verifying first record of its identity has, short of a forgery,
      the node's first key. */
  lemma FirstRecordIsTheNodes(c: Crypto, states: seq<Chrono>, events: seq<Event>, k: nat, prev: ChrononRecord, curr: ChrononRecord)
    requires Run(c, states, events) && k <= |events| && IsGenesisPair(curr) && prev.tbid == states[k].tbid
    requires VerifyPair(c, Hex(states[k].tbid), prev, curr) == Valid
    requires |curr.forward| >= 64 ==>
               NoForgedIdentity(c, states[k], GenesisBlob(prev.tbid, 1, curr.publicKey), curr.forward[64..])
    ensures states[k].ticks != [] && curr.publicKey == states[k].ticks[0].publicKey
  {
    hide VerifyPair, U64, Next;
    GenesisVerdict(c, Hex(states[k].tbid), prev, curr);
    var key := states[k].ticks[0].publicKey;
    assert prev.tbid + (U64(1) + curr.publicKey) == prev.tbid + U64(1) + curr.publicKey;
    SplitEqual(prev.tbid, U64(1) + curr.publicKey, prev.tbid, U64(1) + key);
    SplitEqual(U64(1), curr.publicKey, U64(1), key);
  }

  // ---------------------------------------------------------------- the history is complete

  /** Every signature in a record or a stamp is in the history of what the keys signed. */
  ghost predicate Recorded(c: Crypto, s: Chrono) {
    && (forall a :: 0 <= a < |s.issued| && 1 <= s.issued[a].foretis.chrononNumber <= |s.ticks| ==>
          SignedBy(s, s.ticks[s.issued[a].foretis.chrononNumber - 1].publicKey, Postcard(s.issued[a].foretis)))
    && (forall i :: 0 < i < |s.ticks| ==>
          && SignedBy(s, s.ticks[i - 1].publicKey, PairMessage(Hex(s.tbid), s.ticks[i - 1], s.ticks[i]))
          && SignedBy(s, s.ticks[i].publicKey, PairMessage(Hex(s.tbid), s.ticks[i - 1], s.ticks[i])))
  }

  lemma SignedStays(s: Chrono, s': Chrono, key: bytes, message: bytes)
    requires SignedBy(s, key, message) && s.signed <= s'.signed
    ensures SignedBy(s', key, message)
  {
    var x :| x in s.signed && x.key == key && x.message == message;
    assert x in s'.signed;
  }

  /** What a step adds to the calendar and to the stamps it adds to the history. */
  lemma StepRecorded(c: Crypto, s: Chrono, request: Option<Request>, key: Key, nonce: Nonce)
    requires ChronoInv(c, s) && s.currentTick < U64_MAX
    ensures var s' := Advance(c, s, request, key, nonce);
            && (request.Some? ==> SignedBy(s', key, Postcard(s'.issued[|s.issued|].foretis)))
            && (s.ticks != [] ==>
                  var prev, r := s'.ticks[|s.ticks| - 1], s'.ticks[|s.ticks|];
                  SignedBy(s', prev.publicKey, PairMessage(Hex(s.tbid), prev, r))
                  && SignedBy(s', key, PairMessage(Hex(s.tbid), prev, r)))
  {
    hide TickRecord, Postcard, HonestTick, Explained, GoodStamp, Advance, KeepTwo, PairBlob, GenesisPairBlob;
    AdvanceShape(c, s, request, key, nonce);
    var s', n, prev := Advance(c, s, request, key, nonce), s.currentTick + 1, PreviousKey(s, key);
    LastKeyIsLastTick(s, key);
    RecordFields(c, s.tbid, n, prev, key, Requests(request), nonce);
    if request.Some? {
      var x := Signed(key, Postcard(s'.issued[|s.issued|].foretis), StampAt(n));
      assert StampSignatures(NewStamps(c, s, n, request, key), n, key) == [x];
      assert x in s'.signed;
    }
    if s.ticks != [] {
      NumbersAreConsecutive(c, s);
      var m := Attested(c, s.tbid, n, prev, key, Requests(request), nonce);
      assert PairSignatures(m, n, prev, key) == [Signed(prev, m, AttestAt(n)), Signed(key, m, AttestAt(n))];
      assert Signed(prev, m, AttestAt(n)) in s'.signed && Signed(key, m, AttestAt(n)) in s'.signed;
      assert m == PairMessage(Hex(s.tbid), s'.ticks[|s.ticks| - 1], s'.ticks[|s.ticks|]);
    }
  }

  lemma {:induction false} RunRecorded(c: Crypto, states: seq<Chrono>, events: seq<Event>, k: nat)
    requires Run(c, states, events) && k <= |events|
    ensures Recorded(c, states[k])
  {
    hide TickRecord, Postcard, HonestTick, Explained, GoodStamp, Advance, KeepTwo, PairMessage, SignedBy, Hex, Initial;
    if k == 0 {
      assert Initial(states[0].tbid, states[0].tbn).ticks == [] && Initial(states[0].tbid, states[0].tbn).issued == [] by {
        NothingAtFirst(states[0].tbid, states[0].tbn);
      }
    } else {
      RunRecorded(c, states, events, k - 1);
      RunKeepsInv(c, states, events, k - 1);
      var s, s', e := states[k - 1], states[k], events[k - 1];
      if e.SetDormant? || s.dormant {
        SameHistoryRecorded(c, s, s');
      } else {
        AdvanceRecorded(c, s, if e.Stamp? then Some(e.request) else None, e.key, e.nonce);
      }
    }
  }

  lemma NothingAtFirst(tbid: Tbid, tbn: bytes)
    ensures Initial(tbid, tbn).ticks == [] && Initial(tbid, tbn).issued == []
  {
  }

  lemma SameHistoryRecorded(c: Crypto, s: Chrono, s': Chrono)
    requires Recorded(c, s) && s'.signed == s.signed && s'.ticks == s.ticks && s'.issued == s.issued && s'.tbid == s.tbid
    ensures Recorded(c, s')
  {
    hide Postcard, PairMessage, Hex;
    forall a | 0 <= a < |s'.issued| && 1 <= s'.issued[a].foretis.chrononNumber <= |s'.ticks|
      ensures SignedBy(s', s'.ticks[s'.issued[a].foretis.chrononNumber - 1].publicKey, Postcard(s'.issued[a].foretis))
    {
      SignedStays(s, s', s.ticks[s.issued[a].foretis.chrononNumber - 1].publicKey, Postcard(s.issued[a].foretis));
    }
    forall i | 0 < i < |s'.ticks|
      ensures SignedBy(s', s'.ticks[i - 1].publicKey, PairMessage(Hex(s'.tbid), s'.ticks[i - 1], s'.ticks[i]))
              && SignedBy(s', s'.ticks[i].publicKey, PairMessage(Hex(s'.tbid), s'.ticks[i - 1], s'.ticks[i]))
    {
      SignedStays(s, s', s.ticks[i - 1].publicKey, PairMessage(Hex(s.tbid), s.ticks[i - 1], s.ticks[i]));
      SignedStays(s, s', s.ticks[i].publicKey, PairMessage(Hex(s.tbid), s.ticks[i - 1], s.ticks[i]));
    }
  }

  lemma StampsStayRecorded(c: Crypto, s: Chrono, s': Chrono, a: nat)
    requires HistoryInv(c, s) && Recorded(c, s) && s.signed <= s'.signed && s.ticks <= s'.ticks && s.issued <= s'.issued
    requires a < |s.issued|
    ensures var n := s'.issued[a].foretis.chrononNumber;
            1 <= n <= |s'.ticks| && SignedBy(s', s'.ticks[n - 1].publicKey, Postcard(s'.issued[a].foretis))
  {
    hide Postcard, HonestTick, Explained, PairMessage, Hex, SignedBy;
    assert GoodStamp(c, s, s.issued[a]);
    var n := s.issued[a].foretis.chrononNumber;
    assert s'.issued[a] == s.issued[a] && s'.ticks[n - 1] == s.ticks[n - 1];
    SignedStays(s, s', s.ticks[n - 1].publicKey, Postcard(s.issued[a].foretis));
  }

  lemma PairsStayRecorded(c: Crypto, s: Chrono, s': Chrono, i: nat)
    requires Recorded(c, s) && s.signed <= s'.signed && s.ticks <= s'.ticks && s'.tbid == s.tbid && 0 < i < |s.ticks|
    ensures SignedBy(s', s'.ticks[i - 1].publicKey, PairMessage(Hex(s'.tbid), s'.ticks[i - 1], s'.ticks[i]))
    ensures SignedBy(s', s'.ticks[i].publicKey, PairMessage(Hex(s'.tbid), s'.ticks[i - 1], s'.ticks[i]))
  {
    hide Postcard, PairMessage, Hex, SignedBy;
    assert s'.ticks[i - 1] == s.ticks[i - 1] && s'.ticks[i] == s.ticks[i];
    SignedStays(s, s', s.ticks[i - 1].publicKey, PairMessage(Hex(s.tbid), s.ticks[i - 1], s.ticks[i]));
    SignedStays(s, s', s.ticks[i].publicKey, PairMessage(Hex(s.tbid), s.ticks[i - 1], s.ticks[i]));
  }

  lemma AdvanceRecorded(c: Crypto, s: Chrono, request: Option<Request>, key: Key, nonce: Nonce)
    requires ChronoInv(c, s) && s.currentTick < U64_MAX && Recorded(c, s)
    ensures Recorded(c, Advance(c, s, request, key, nonce))
  {
    hide TickRecord, Postcard, HonestTick, Explained, GoodStamp, Advance, KeepTwo, PairMessage, SignedBy, Hex, Attested,
      PreviousKey;
    var s', t := Advance(c, s, request, key, nonce), |s.ticks|;
    AdvanceShape(c, s, request, key, nonce);
    StepRecorded(c, s, request, key, nonce);
    RecordFields(c, s.tbid, s.currentTick + 1, PreviousKey(s, key), key, Requests(request), nonce);
    forall a | 0 <= a < |s'.issued| && 1 <= s'.issued[a].foretis.chrononNumber <= |s'.ticks|
      ensures SignedBy(s', s'.ticks[s'.issued[a].foretis.chrononNumber - 1].publicKey, Postcard(s'.issued[a].foretis))
    {
      if a < |s.issued| {
        StampsStayRecorded(c, s, s', a);
      }
    }
    forall i | 0 < i < |s'.ticks|
      ensures SignedBy(s', s'.ticks[i - 1].publicKey, PairMessage(Hex(s'.tbid), s'.ticks[i - 1], s'.ticks[i]))
              && SignedBy(s', s'.ticks[i].publicKey, PairMessage(Hex(s'.tbid), s'.ticks[i - 1], s'.ticks[i]))
    {
      if i < t {
        PairsStayRecorded(c, s, s', i);
      }
    }
  }

  /** The node's own calendar and stamps are never taken for forgeries, so what is proved of presented ones speaks of
      them too. */
  lemma HonestIsNotForged(c: Crypto, states: seq<Chrono>, events: seq<Event>, k: nat)
    requires Run(c, states, events) && k <= |events|
    ensures NoForgery(c, states[k], states[k].ticks)
  {
    hide PairMessage, SignedBy, Hex, Run;
    RunRecorded(c, states, events, k);
  }
}
