/** What every history of a ticking node guarantees, to its own checks and against presented calendars. */
module ChronoProofs {
  import opened Encoding
  import opened Prelude
  import opened Records
  import opened CalendarSpec
  import opened ChronoSpec

  // ---------------------------------------------------------------- the chain verifies

  lemma NumbersAreConsecutive(c: Crypto, s: Chrono)
    requires ChronoInv(c, s)
    ensures forall i :: 0 <= i < |s.ticks| ==> s.ticks[i].chrononNumber == i + 1
    ensures Increasing(s.ticks)
  {
    hide TickRecord, Explained, GoodStamp;
    forall i | 0 <= i < |s.ticks| ensures s.ticks[i].chrononNumber == i + 1 {
      HonestFields(c, s, i);
    }
  }

  lemma HonestFields(c: Crypto, s: Chrono, i: nat)
    requires HistoryInv(c, s) && i < |s.ticks|
    ensures HonestTick(c, s, i)
    ensures s.ticks[i].chrononNumber == i + 1 && s.ticks[i].tbid == s.tbid
    ensures s.ticks[i].signatureAlgorithm == ED25519 && s.ticks[i].tbVersion == (if i == 0 then 1 else 0)
  {
    hide TickRecord, Explained, GoodStamp;
    assert HonestTick(c, s, i);
    var r := s.ticks[i];
    RecordFields(c, s.tbid, i + 1, s.ticks[if i > 0 then i - 1 else 0].publicKey, r.publicKey, r.stampCount, r.nonce);
  }

  lemma HonestPair(c: Crypto, s: Chrono, i: nat)
    requires Correct(c) && HistoryInv(c, s) && 0 < i < |s.ticks|
    ensures VerifyPair(c, Hex(s.tbid), s.ticks[i - 1], s.ticks[i]) == Valid
  {
    hide Explained, GoodStamp, PairBlob, Hex;
    HonestFields(c, s, i);
    HonestFields(c, s, i - 1);
    var prev, r := s.ticks[i - 1], s.ticks[i];
    var blob := PairBlob(Hex(s.tbid), i, prev.publicKey, i + 1, r.publicKey, r.stampCount, r.nonce);
    assert PairMessage(Hex(s.tbid), prev, r) == blob;
    assert r.forward == c.sign(prev.publicKey, blob) && r.backward == c.sign(r.publicKey, blob);
  }

  /** The first record attests itself, identity signature included. */
  lemma HonestGenesis(c: Crypto, s: Chrono)
    requires Correct(c) && HistoryInv(c, s) && s.ticks != []
    ensures VerifyPair(c, Hex(s.tbid), s.ticks[0], s.ticks[0]) == Valid
  {
    hide Explained, GoodStamp, GenesisPairBlob, GenesisBlob, Hex;
    HonestFields(c, s, 0);
    var r := s.ticks[0];
    var key: Key := r.publicKey;
    var sig := c.tbidSign(s.tbid, GenesisBlob(s.tbid, 1, key));
    var blob := GenesisPairBlob(Hex(s.tbid), 1, key, sig, r.stampCount, r.nonce);
    var ed := c.sign(key, blob);
    assert r.forward == ed + sig && |ed| == 64;
    assert (ed + sig)[..ED25519_SIG_LEN] == ed && (ed + sig)[ED25519_SIG_LEN..] == sig;
  }

  /** In every state of every run record i has tick i+1, the integrity check is all true over every range, both as the
      calendar and as the node run it, and the recorded stamp counts add up to the stamps issued. */
  lemma ReachableChainVerifies(c: Crypto, states: seq<Chrono>, events: seq<Event>, k: nat, start: Option<u64>, end: Option<u64>)
    requires Correct(c) && Run(c, states, events) && k <= |events|
    ensures var s := states[k];
            && (forall i :: 0 <= i < |s.ticks| ==> s.ticks[i].chrononNumber == i + 1)
            && AllTrue(IntegrityCheck(c, Hex(s.tbid), s.ticks, start, end))
            && AllTrue(NodeIntegrityCheck(c, Hex(s.tbid), s.ticks, start, end))
            && (s.ticks != [] ==> VerifyPair(c, Hex(s.tbid), s.ticks[0], s.ticks[0]) == Valid)
            && StampsRecorded(s.ticks) == |s.issued|
  {
    hide VerifyPair, Hex, Next, WindowInv, Correct, IntegrityCheck, NodeIntegrityCheck;
    RunKeepsInv(c, states, events, k);
    var s := states[k];
    NumbersAreConsecutive(c, s);
    HonestLinks(c, s);
    LinkedPassesEveryRange(c, Hex(s.tbid), s.ticks, start, end);
    NodeCheckAllTrue(c, Hex(s.tbid), s.ticks, start, end);
    if s.ticks != [] {
      HonestGenesis(c, s);
    }
  }

  lemma HonestLinks(c: Crypto, s: Chrono)
    requires Correct(c) && HistoryInv(c, s)
    ensures Linked(c, Hex(s.tbid), s.ticks)
  {
    hide VerifyPair, HistoryInv, Hex;
    forall i | 0 < i < |s.ticks| ensures VerifyPair(c, Hex(s.tbid), s.ticks[i - 1], s.ticks[i]) == Valid {
      HonestPair(c, s, i);
    }
  }

  lemma NodeCheckAllTrue(c: Crypto, tbid: bytes, ticks: seq<ChrononRecord>, start: Option<u64>, end: Option<u64>)
    requires Increasing(ticks) && AllTrue(IntegrityCheck(c, tbid, ticks, start, end))
    ensures AllTrue(NodeIntegrityCheck(c, tbid, ticks, start, end))
  {
    hide IntegrityCheck, NodeIntegrityCheck;
    NodeCheckExactly(c, tbid, ticks, start, end);
  }

  // ---------------------------------------------------------------- stamps verify

  /** Every stamp ever issued verifies against the node's calendar of any later moment, for a content with the same
      SHA-256 value as the stamped one and for no other. */
  lemma EveryStampVerifies(c: Crypto, states: seq<Chrono>, events: seq<Event>, k: nat, a: nat, content: bytes)
    requires Correct(c) && Run(c, states, events) && k <= |events| && a < |states[k].issued|
    ensures var s := states[k];
            var x := s.issued[a];
            VerifyStamp(c, x.foretis, x.signature, x.algorithm, content, GetFrom(s.ticks, x.foretis.chrononNumber, 1))
            == if c.sha256(content) == c.sha256(x.content) then Valid else Invalid
  {
    hide Next, Postcard, WindowInv, Explained, TickRecord;
    RunKeepsInv(c, states, events, k);
    var s := states[k];
    var x := s.issued[a];
    assert GoodStamp(c, s, x);
    NumbersAreConsecutive(c, s);
    RecordOfTick(s.ticks, x.foretis.chrononNumber);
  }

  lemma RecordOfTick(ticks: seq<ChrononRecord>, n: u64)
    requires 1 <= n <= |ticks| && forall i :: 0 <= i < |ticks| ==> ticks[i].chrononNumber == i + 1
    ensures GetFrom(ticks, n, 1) == [ticks[n - 1]]
  {
    FullRange(ticks);
    RangeIsSlice(ticks, n, U64_MAX);
    BelowIs(ticks, n, n - 1);
    hide Below, InRange;
    assert InRange(ticks, n, U64_MAX) == ticks[n - 1..];
  }

  // ---------------------------------------------------------------- the signing window

  /** The node holds exactly the key pairs of its last two ticks, or of its only one. */
  lemma KeyStoreIsWindow(c: Crypto, states: seq<Chrono>, events: seq<Event>, k: nat)
    requires Run(c, states, events) && k <= |events|
    ensures var s := states[k];
            var t := |s.ticks|;
            && s.currentTick == t
            && |s.keys| == (if t < 2 then t else 2)
            && (t >= 1 ==> s.keys[|s.keys| - 1] == s.ticks[t - 1].publicKey)
            && (t >= 2 ==> s.keys[0] == s.ticks[t - 2].publicKey)
  {
    hide Next, HistoryInv;
    RunKeepsInv(c, states, events, k);
  }

  /** Everything the key of tick n ever signed is a stamp of tick n or the attestation of tick n or n+1. */
  lemma KeySignsOnly(c: Crypto, states: seq<Chrono>, events: seq<Event>, k: nat, a: nat, n: nat)
    requires Run(c, states, events) && k <= |events| && a < |states[k].signed| && 1 <= n <= |states[k].ticks|
    requires states[k].signed[a].key == states[k].ticks[n - 1].publicKey
    ensures var s := states[k];
            var x := s.signed[a];
            match x.purpose
            case StampAt(m) =>
              m == n && exists j :: 0 <= j < |s.issued| && s.issued[j].foretis.chrononNumber == n && x.message == Postcard(s.issued[j].foretis)
            case AttestAt(m) =>
              (m == n || m == n + 1) && 1 <= m <= |s.ticks| && m <= U64_MAX
              && |s.ticks[if m > 1 then m - 2 else 0].publicKey| == 32 && |s.ticks[m - 1].publicKey| == 32
              && x.message == Attested(c, s.tbid, m, s.ticks[if m > 1 then m - 2 else 0].publicKey,
                                       s.ticks[m - 1].publicKey, s.ticks[m - 1].stampCount, s.ticks[m - 1].nonce)
  {
    hide Next, Attested, Postcard;
    RunKeepsInv(c, states, events, k);
    assert Explained(c, states[k], states[k].signed[a]);
  }

  /** The stamps in the history, by position, are of strictly later and later ticks. */
  ghost predicate StampsInOrder(s: Chrono) {
    && (forall a :: 0 <= a < |s.signed| && s.signed[a].purpose.StampAt? ==> s.signed[a].purpose.tick <= s.currentTick)
    && (forall a, b :: 0 <= a < b < |s.signed| && s.signed[a].purpose.StampAt? && s.signed[b].purpose.StampAt? ==>
          s.signed[a].purpose.tick < s.signed[b].purpose.tick)
  }

  lemma AdvanceKeepsOrder(c: Crypto, s: Chrono, request: Option<Request>, key: Key, nonce: Nonce)
    requires WindowInv(s) && s.currentTick < U64_MAX && StampsInOrder(s)
    ensures StampsInOrder(Advance(c, s, request, key, nonce))
  {
    hide Advance, TickRecord, NewStamps, Attested, Postcard;
    AdvanceShape(c, s, request, key, nonce);
  }

  lemma {:induction false} RunStampsInOrder(c: Crypto, states: seq<Chrono>, events: seq<Event>, k: nat)
    requires Run(c, states, events) && k <= |events|
    ensures StampsInOrder(states[k])
  {
    hide Advance, HistoryInv, StampsInOrder, WindowInv;
    if k == 0 {
      assert StampsInOrder(states[0]) by {
        NothingInOrder(states[0]);
      }
    } else {
      RunStampsInOrder(c, states, events, k - 1);
      RunKeepsInv(c, states, events, k - 1);
      var s, e := states[k - 1], events[k - 1];
      if s.dormant || e.SetDormant? {
        SameSignaturesInOrder(s, states[k]);
      } else {
        AdvanceKeepsOrder(c, s, if e.Stamp? then Some(e.request) else None, e.key, e.nonce);
      }
    }
  }

  lemma NothingInOrder(s: Chrono)
    requires s.signed == []
    ensures StampsInOrder(s)
  {
  }

  lemma SameSignaturesInOrder(s: Chrono, s': Chrono)
    requires StampsInOrder(s) && s'.signed == s.signed && s'.currentTick == s.currentTick
    ensures StampsInOrder(s')
  {
  }

  /** No key signs two stamps. */
  lemma KeyStampsOnce(c: Crypto, states: seq<Chrono>, events: seq<Event>, k: nat, a: nat, b: nat)
    requires Run(c, states, events) && k <= |events| && a < b < |states[k].signed|
    requires states[k].signed[a].purpose.StampAt? && states[k].signed[b].purpose.StampAt?
    ensures states[k].signed[a].key != states[k].signed[b].key
  {
    hide Next, Attested, Postcard;
    RunKeepsInv(c, states, events, k);
    RunStampsInOrder(c, states, events, k);
    assert Explained(c, states[k], states[k].signed[a]) && Explained(c, states[k], states[k].signed[b]);
  }

  /** The node's calendar and history only grow. */
  lemma {:induction false} RunGrows(c: Crypto, states: seq<Chrono>, events: seq<Event>, j: nat, k: nat)
    requires Run(c, states, events) && j <= k <= |events|
    ensures states[j].ticks <= states[k].ticks && states[j].signed <= states[k].signed && states[j].issued <= states[k].issued
    ensures states[j].tbid == states[k].tbid
  {
    hide TickRecord, Attested, Postcard, NewStamps, StampSignatures, PairSignatures, KeepTwo, Initial;
    if j < k {
      RunGrows(c, states, events, j, k - 1);
      assert states[k] == Next(c, states[k - 1], events[k - 1]);
    }
  }

  /** What a step signs, it signs with the key of the latest tick before it or with the new one. */
  lemma StepSignsWithWindow(c: Crypto, s: Chrono, e: Event, a: nat)
    requires WindowInv(s) && Possible(s, e) && |s.signed| <= a < |Next(c, s, e).signed|
    ensures var s' := Next(c, s, e);
            |s'.ticks| == |s.ticks| + 1
            && (s'.signed[a].key == s'.ticks[|s.ticks|].publicKey
                || (s.ticks != [] && s'.signed[a].key == s.ticks[|s.ticks| - 1].publicKey))
  {
    hide Advance, TickRecord, Attested, Postcard, NewStamps;
    var request := if e.Stamp? then Some(e.request) else None;
    AdvanceShape(c, s, request, e.key, e.nonce);
    RecordFields(c, s.tbid, s.currentTick + 1, PreviousKey(s, e.key), e.key, Requests(request), e.nonce);
    LastKeyIsLastTick(s, e.key);
    assert Next(c, s, e) == Advance(c, s, request, e.key, e.nonce);
  }

  lemma StepSparesRetired(c: Crypto, s: Chrono, e: Event, n: nat, a: nat)
    requires WindowInv(s) && Possible(s, e) && 1 <= n < |s.ticks| && |s.signed| <= a < |Next(c, s, e).signed|
    ensures Next(c, s, e).signed[a].key != s.ticks[n - 1].publicKey
  {
    hide Next;
    StepSignsWithWindow(c, s, e, a);
    NewKeyIsFresh(c, s, e);
  }

  lemma NewKeyIsFresh(c: Crypto, s: Chrono, e: Event)
    requires WindowInv(s) && Possible(s, e) && |Next(c, s, e).ticks| > |s.ticks|
    ensures !HasKey(s.ticks, Next(c, s, e).ticks[|s.ticks|].publicKey)
  {
    hide Advance, TickRecord, Attested, Postcard, NewStamps;
    var request := if e.Stamp? then Some(e.request) else None;
    AdvanceShape(c, s, request, e.key, e.nonce);
    RecordFields(c, s.tbid, s.currentTick + 1, PreviousKey(s, e.key), e.key, Requests(request), e.nonce);
  }

  /** Once the record of tick n+1 is in the calendar, the key of tick n signs nothing more. */
  lemma {:induction false} RetiredKeySignsNothing(c: Crypto, states: seq<Chrono>, events: seq<Event>, j: nat, k: nat, n: nat, a: nat)
    requires Run(c, states, events) && j <= k <= |events| && 1 <= n < |states[j].ticks|
    requires |states[j].signed| <= a < |states[k].signed|
    ensures states[k].signed[a].key != states[j].ticks[n - 1].publicKey
    decreases k
  {
    hide Next, HistoryInv, WindowInv;
    if j < k {
      RunGrows(c, states, events, j, k - 1);
      RunGrows(c, states, events, k - 1, k);
      RunKeepsInv(c, states, events, k - 1);
      assert states[k - 1].ticks[n - 1] == states[j].ticks[n - 1];
      if a < |states[k - 1].signed| {
        RetiredKeySignsNothing(c, states, events, j, k - 1, n, a);
        assert states[k].signed[a] == states[k - 1].signed[a];
      } else {
        StepSparesRetired(c, states[k - 1], events[k - 1], n, a);
      }
    }
  }

  // ---------------------------------------------------------------- no fork

  ghost predicate SignedBy(s: Chrono, key: bytes, message: bytes) {
    exists x :: x in s.signed && x.key == key && x.message == message
  }

  /** Where a forward signature verifies under a key of the node, that key did sign those bytes. */
  ghost predicate NoForgedPair(c: Crypto, s: Chrono, prev: ChrononRecord, curr: ChrononRecord) {
    var message := PairMessage(Hex(s.tbid), prev, curr);
    HasKey(s.ticks, prev.publicKey) && c.verify(prev.publicKey, curr.signatureAlgorithm, message, curr.forward) == Valid
    ==> SignedBy(s, prev.publicKey, message)
  }

  ghost predicate NoForgery(c: Crypto, s: Chrono, calendar: seq<ChrononRecord>) {
    forall i :: 0 < i < |calendar| ==> NoForgedPair(c, s, calendar[i - 1], calendar[i])
  }

  /** Tick number and key of a presented record are those of the node's record at the same place, and behind the first
      record so are the stamp count and the nonce. */
  ghost predicate Agrees(s: Chrono, calendar: seq<ChrononRecord>, i: nat)
    requires i < |calendar|
  {
    && i < |s.ticks|
    && calendar[i].chrononNumber == s.ticks[i].chrononNumber
    && calendar[i].publicKey == s.ticks[i].publicKey
    && (i > 0 ==> calendar[i].stampCount == s.ticks[i].stampCount && calendar[i].nonce == s.ticks[i].nonce)
  }

  /** A signature by the key of tick i whose bytes are a pair attestation from tick i is the attestation of tick i+1. */
  lemma OnlySuccessorAttested(c: Crypto, s: Chrono, x: Signed, i: u64, key: Key, b: u64, bKey: Key, stamps: u64, nonce: Nonce)
    requires Correct(c) && Explained(c, s, x)
    requires x.message == PairBlob(Hex(s.tbid), i, key, b, bKey, stamps, nonce)
    ensures x.purpose.AttestAt? && x.purpose.tick == i + 1 == b && 1 < b <= |s.ticks| && key == s.ticks[b - 2].publicKey
    ensures bKey == s.ticks[b - 1].publicKey && stamps == s.ticks[b - 1].stampCount && nonce == s.ticks[b - 1].nonce
  {
    hide Hex, PairBlob, GenesisPairBlob, Postcard;
    var n := x.purpose.tick;
    var r := s.ticks[n - 1];
    var prev := s.ticks[if n > 1 then n - 2 else 0];
    if x.purpose.StampAt? {
      var j :| 0 <= j < |s.issued| && s.issued[j].foretis.chrononNumber == n && x.message == Postcard(s.issued[j].foretis);
      PairBlobIsHexText(s.tbid, i, key, b, bKey, stamps, nonce);
      PostcardIsNotHexText(s.issued[j].foretis, x.message);
      assert false;
    } else if n == 1 {
      PairBlobIsNotGenesis(Hex(s.tbid), i, key, b, bKey, stamps, nonce, Hex(s.tbid), 1, r.publicKey,
                           c.tbidSign(s.tbid, GenesisBlob(s.tbid, 1, r.publicKey)), r.stampCount, r.nonce);
      assert false;
    } else {
      PairBlobInjective(Hex(s.tbid), i, key, b, bKey, stamps, nonce,
                        Hex(s.tbid), n - 1, prev.publicKey, n, r.publicKey, r.stampCount, r.nonce);
    }
  }

  lemma PairBlobIsHexText(tbid: Tbid, i: u64, key: Key, b: u64, bKey: Key, stamps: u64, nonce: Nonce)
    ensures var blob := PairBlob(Hex(tbid), i, key, b, bKey, stamps, nonce);
            |blob| >= 2 && IsHexDigit(blob[0]) && IsHexDigit(blob[1])
  {
    hide Hex, U64;
    BlobBeginsWithHex(tbid, U64(i) + (key + (U64(b) + (bKey + (U64(stamps) + nonce)))));
  }

  lemma ForkStep(c: Crypto, s: Chrono, calendar: seq<ChrononRecord>, i: nat)
    requires Correct(c) && ChronoInv(c, s) && NoForgery(c, s, calendar) && Linked(c, Hex(s.tbid), calendar) && Increasing(calendar)
    requires forall j :: 0 <= j < |calendar| ==> |calendar[j].publicKey| == 32
    requires 0 < i < |calendar| && Agrees(s, calendar, i - 1) && calendar[0].chrononNumber == 1
    ensures Agrees(s, calendar, i)
  {
    hide Hex, PairBlob, GenesisPairBlob;
    var prev, curr := calendar[i - 1], calendar[i];
    assert curr.chrononNumber > calendar[0].chrononNumber;
    NumbersAreConsecutive(c, s);
    assert HasKey(s.ticks, prev.publicKey);
    assert VerifyPair(c, Hex(s.tbid), prev, curr) == Valid;
    assert NoForgedPair(c, s, prev, curr);
    var x :| x in s.signed && x.key == prev.publicKey && x.message == PairMessage(Hex(s.tbid), prev, curr);
    assert Explained(c, s, x);
    hide Explained, VerifyPair, HistoryInv, WindowInv, NoForgery;
    OnlySuccessorAttested(c, s, x, i, prev.publicKey, curr.chrononNumber, curr.publicKey, curr.stampCount, curr.nonce);
  }

  lemma {:induction false} ForkInduction(c: Crypto, s: Chrono, calendar: seq<ChrononRecord>, i: nat)
    requires Correct(c) && ChronoInv(c, s) && NoForgery(c, s, calendar) && Linked(c, Hex(s.tbid), calendar) && Increasing(calendar)
    requires forall j :: 0 <= j < |calendar| ==> |calendar[j].publicKey| == 32
    requires i < |calendar| && calendar[0].chrononNumber == 1 && Agrees(s, calendar, 0)
    ensures Agrees(s, calendar, i)
  {
    hide ChronoInv, NoForgery, Linked, Increasing, Correct, Agrees, Hex;
    if i > 0 {
      ForkInduction(c, s, calendar, i - 1);
      ForkStep(c, s, calendar, i);
    }
  }

  /** No fork: whatever calendar someone presents, if its first record has the node's first tick and key, its tick
      numbers increase, its keys are 32 bytes long and all its pairs verify, then, short of a forgery, it is a prefix
      of the node's own calendar in tick numbers, keys, stamp counts and nonces. */
  lemma NoFork(c: Crypto, states: seq<Chrono>, events: seq<Event>, k: nat, calendar: seq<ChrononRecord>)
    requires Correct(c) && Run(c, states, events) && k <= |events| && states[k].ticks != []
    requires calendar != [] && calendar[0].chrononNumber == 1 && calendar[0].publicKey == states[k].ticks[0].publicKey
    requires Increasing(calendar) && forall j :: 0 <= j < |calendar| ==> |calendar[j].publicKey| == 32
    requires Linked(c, Hex(states[k].tbid), calendar) && NoForgery(c, states[k], calendar)
    ensures |calendar| <= |states[k].ticks|
    ensures forall i :: 0 <= i < |calendar| ==> Agrees(states[k], calendar, i)
  {
    hide Next, NoForgery, Linked, Increasing, Correct, Hex, WindowInv;
    RunKeepsInv(c, states, events, k);
    NumbersAreConsecutive(c, states[k]);
    assert Agrees(states[k], calendar, 0);
    hide ChronoInv;
    forall i: nat | i < |calendar| ensures Agrees(states[k], calendar, i) {
      ForkInduction(c, states[k], calendar, i);
    }
    assert Agrees(states[k], calendar, |calendar| - 1);
  }
}
