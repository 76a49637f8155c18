/**
  The ticking signer (p2p/core-engine/src/chronomatter/mod.rs) as a state machine whose steps are one stamp, one
  daemon tick or one change of dormancy, with the history of everything its tick keys signed.
 */
module ChronoSpec {
  import opened Encoding
  import opened Prelude
  import opened Records
  import opened CalendarSpec

  /** Why a tick key signed something. */
  datatype Purpose = StampAt(tick: nat) | AttestAt(tick: nat)

  datatype Signed = Signed(key: Key, message: bytes, purpose: Purpose)

  /** A stamp as returned to its client, with the content it was asked for. */
  datatype Issued = Issued(foretis: ForetisRecord, signature: bytes, algorithm: string, content: bytes)

  /** `ticks` is the calendar of the observer; `signed` and `issued` are history. */
  datatype Chrono = Chrono(
    tbid: Tbid, tbn: bytes, currentTick: nat, keys: seq<Key>, dormant: bool, stampCount: nat,
    ticks: seq<ChrononRecord>, signed: seq<Signed>, issued: seq<Issued>)

  function Initial(tbid: Tbid, tbn: bytes): Chrono {
    Chrono(tbid, tbn, 0, [], false, 0, [], [], [])
  }

  /** What a client asks to have stamped, and the reference time the clock gives. */
  datatype Request = Request(content: bytes, echo: bytes, referenceTime: bytes)

  /** A step with the key pair and the nonce it draws. */
  datatype Event =
    | Stamp(request: Request, key: Key, nonce: Nonce)
    | DaemonTick(key: Key, nonce: Nonce)
    | SetDormant(dormant: bool)

  /** Push, then evict the oldest until two remain. */
  function KeepTwo(keys: seq<Key>): seq<Key>
    decreases |keys|
  {
    if |keys| <= 2 then keys else KeepTwo(keys[1..])
  }

  /** The record of a tick with its attestation by the previous key and by its own. */
  function TickRecord(c: Crypto, tbid: Tbid, tick: u64, prevKey: Key, key: Key, stamps: u64, nonce: Nonce): ChrononRecord {
    if tick == 1 then
      var genesisSig := c.tbidSign(tbid, GenesisBlob(tbid, tick, key));
      var edSig := c.sign(key, GenesisPairBlob(Hex(tbid), tick, key, genesisSig, stamps, nonce));
      ChrononRecord(tick, key, ED25519, edSig + genesisSig, edSig + genesisSig, nonce, stamps, [], 1, tbid)
    else
      var blob := PairBlob(Hex(tbid), if tick == 0 then 0 else tick - 1, prevKey, tick, key, stamps, nonce);
      ChrononRecord(tick, key, ED25519, c.sign(prevKey, blob), c.sign(key, blob), nonce, stamps, [], 0, tbid)
  }

  /** The bytes attested for a tick. */
  function Attested(c: Crypto, tbid: Tbid, tick: u64, prevKey: Key, key: Key, stamps: u64, nonce: Nonce): bytes {
    if tick == 1 then
      GenesisPairBlob(Hex(tbid), tick, key, c.tbidSign(tbid, GenesisBlob(tbid, tick, key)), stamps, nonce)
    else PairBlob(Hex(tbid), if tick == 0 then 0 else tick - 1, prevKey, tick, key, stamps, nonce)
  }

  /** The stamp made for a request; nothing without one. */
  function NewStamps(c: Crypto, s: Chrono, tick: u64, request: Option<Request>, key: Key): (r: seq<Issued>)
    ensures |r| == Requests(request)
  {
    match request
    case None => []
    case Some(q) =>
      var f := ForetisRecord(tick, c.sha256(q.content), s.tbid, q.echo, s.tbn, q.referenceTime);
      [Issued(f, c.sign(key, Postcard(f)), ED25519, q.content)]
  }

  /** The stamp made for a request at a tick: every field from where it belongs. */
  ghost predicate AnswersRequest(c: Crypto, s: Chrono, x: Issued, q: Request, tick: nat, key: Key) {
    && x.foretis.chrononNumber == tick
    && x.foretis.contentHash == c.sha256(q.content) && x.content == q.content
    && x.foretis.tbid == s.tbid && x.foretis.tbn == s.tbn
    && x.foretis.echo == q.echo && x.foretis.referenceTime == q.referenceTime
    && x.signature == c.sign(key, Postcard(x.foretis)) && x.algorithm == ED25519
  }

  function Requests(request: Option<Request>): u64 {
    if request.Some? then 1 else 0
  }

  /** What a step signs, in order: the stamp if there is one, then the attestation with the old and the new key. */
  function StampSignatures(stamps: seq<Issued>, tick: u64, key: Key): seq<Signed> {
    if stamps == [] then [] else [Signed(key, Postcard(stamps[0].foretis), StampAt(tick))]
  }

  function PairSignatures(message: bytes, tick: u64, prevKey: Key, key: Key): seq<Signed> {
    if tick == 1 then [Signed(key, message, AttestAt(tick))]
    else [Signed(prevKey, message, AttestAt(tick)), Signed(key, message, AttestAt(tick))]
  }

  /** The common part of a stamp and a daemon tick: a new key, at most one stamp under it, one record. */
  function Advance(c: Crypto, s: Chrono, request: Option<Request>, key: Key, nonce: Nonce): Chrono
    requires s.currentTick < U64_MAX && s.stampCount < U64_MAX
  {
    var tick: u64 := s.currentTick + 1;
    var stamps: u64 := s.stampCount + Requests(request);
    var keys := KeepTwo(s.keys + [key]);
    var prevKey := if |keys| >= 2 then keys[|keys| - 2] else key;
    var stamped := NewStamps(c, s, tick, request, key);
    s.(currentTick := tick, keys := keys, stampCount := 0,
       ticks := s.ticks + [TickRecord(c, s.tbid, tick, prevKey, key, stamps, nonce)],
       signed := s.signed + StampSignatures(stamped, tick, key)
                 + PairSignatures(Attested(c, s.tbid, tick, prevKey, key, stamps, nonce), tick, prevKey, key),
       issued := s.issued + stamped)
  }

  function Next(c: Crypto, s: Chrono, e: Event): Chrono
    requires e.SetDormant? || (s.currentTick < U64_MAX && s.stampCount < U64_MAX)
  {
    match e
    case Stamp(request, key, nonce) => if s.dormant then s else Advance(c, s, Some(request), key, nonce)
    case DaemonTick(key, nonce) => if s.dormant then s else Advance(c, s, None, key, nonce)
    case SetDormant(d) => s.(dormant := d)
  }

  // ---------------------------------------------------------------- runs

  ghost predicate HasKey(ticks: seq<ChrononRecord>, key: bytes) {
    exists i :: 0 <= i < |ticks| && ticks[i].publicKey == key
  }

  /** Key pairs are drawn afresh, and the 64-bit tick counter has not come round. */
  ghost predicate Possible(s: Chrono, e: Event) {
    && (e.SetDormant? || (s.currentTick < U64_MAX && s.stampCount < U64_MAX))
    && (e.Stamp? ==> !HasKey(s.ticks, e.key))
    && (e.DaemonTick? ==> !HasKey(s.ticks, e.key))
  }

  /** A history of a node from its creation: the states it goes through and the steps between them. */
  ghost predicate Run(c: Crypto, states: seq<Chrono>, events: seq<Event>) {
    && |states| == |events| + 1
    && states[0] == Initial(states[0].tbid, states[0].tbn)
    && forall k: nat | k < |events| :: Possible(states[k], events[k]) && states[k + 1] == Next(c, states[k], events[k])
  }

  // ---------------------------------------------------------------- what every run keeps

  /** Record i is the honest record of tick i+1, attested by the key of the record before it. */
  ghost predicate HonestTick(c: Crypto, s: Chrono, i: nat)
    requires i < |s.ticks|
  {
    var r := s.ticks[i];
    && i < U64_MAX && |r.publicKey| == 32 && |s.ticks[if i > 0 then i - 1 else 0].publicKey| == 32
    && r == TickRecord(c, s.tbid, i + 1, s.ticks[if i > 0 then i - 1 else 0].publicKey, r.publicKey, r.stampCount, r.nonce)
  }

  /** A signature in the history is the stamp of its tick under that tick's key, or the attestation of a tick under
      that tick's key or the one before. */
  ghost predicate Explained(c: Crypto, s: Chrono, x: Signed) {
    var n := x.purpose.tick;
    && 1 <= n <= |s.ticks| && n <= U64_MAX
    && var r := s.ticks[n - 1];
    && var prev := s.ticks[if n > 1 then n - 2 else 0];
    && |r.publicKey| == 32 && |prev.publicKey| == 32
    && match x.purpose
       case StampAt(_) =>
         x.key == r.publicKey
         && exists j :: 0 <= j < |s.issued| && s.issued[j].foretis.chrononNumber == n && x.message == Postcard(s.issued[j].foretis)
       case AttestAt(_) =>
         (x.key == r.publicKey || x.key == prev.publicKey)
         && x.message == Attested(c, s.tbid, n, prev.publicKey, r.publicKey, r.stampCount, r.nonce)
  }

  /** A stamp handed out carries its tick, the hash of its content and the signature of that tick's key. */
  ghost predicate GoodStamp(c: Crypto, s: Chrono, x: Issued) {
    var n := x.foretis.chrononNumber;
    && 1 <= n <= |s.ticks| && |s.ticks[n - 1].publicKey| == 32
    && x.foretis.contentHash == c.sha256(x.content) && x.algorithm == ED25519
    && x.signature == c.sign(s.ticks[n - 1].publicKey, Postcard(x.foretis))
  }

  function StampsRecorded(ticks: seq<ChrononRecord>): nat {
    if ticks == [] then 0 else StampsRecorded(ticks[..|ticks| - 1]) + ticks[|ticks| - 1].stampCount
  }

  ghost predicate WindowInv(s: Chrono) {
    && |s.ticks| == s.currentTick <= U64_MAX && s.stampCount == 0
    && |s.keys| == (if |s.ticks| < 2 then |s.ticks| else 2)
    && (forall i: nat {:trigger s.keys[i]} | i < |s.keys| :: s.keys[i] == s.ticks[|s.ticks| - |s.keys| + i].publicKey)
    && (forall i, j :: 0 <= i < j < |s.ticks| ==> s.ticks[i].publicKey != s.ticks[j].publicKey)
  }

  ghost predicate HistoryInv(c: Crypto, s: Chrono) {
    && (forall i: nat | i < |s.ticks| :: HonestTick(c, s, i))
    && (forall a :: 0 <= a < |s.signed| ==> Explained(c, s, s.signed[a]))
    && (forall a :: 0 <= a < |s.issued| ==> GoodStamp(c, s, s.issued[a]))
    && StampsRecorded(s.ticks) == |s.issued|
  }

  ghost predicate ChronoInv(c: Crypto, s: Chrono) {
    WindowInv(s) && HistoryInv(c, s)
  }

  function PreviousKey(s: Chrono, key: Key): Key
    requires WindowInv(s)
  {
    if s.keys == [] then key else s.keys[|s.keys| - 1]
  }

  /** The effect of a step on a node in a good window, field by field. */
  lemma AdvanceShape(c: Crypto, s: Chrono, request: Option<Request>, key: Key, nonce: Nonce)
    requires WindowInv(s) && s.currentTick < U64_MAX
    ensures var s' := Advance(c, s, request, key, nonce);
            var n: u64 := s.currentTick + 1;
            var prev := PreviousKey(s, key);
            var stamps := Requests(request);
            && s'.tbid == s.tbid && s'.tbn == s.tbn && s'.dormant == s.dormant && s'.currentTick == n && s'.stampCount == 0
            && s'.keys == (if n == 1 then [key] else [prev, key])
            && s'.ticks == s.ticks + [TickRecord(c, s.tbid, n, prev, key, stamps, nonce)]
            && s'.issued == s.issued + NewStamps(c, s, n, request, key)
            && s'.signed == s.signed + StampSignatures(NewStamps(c, s, n, request, key), n, key)
                            + PairSignatures(Attested(c, s.tbid, n, prev, key, stamps, nonce), n, prev, key)
  {
    hide Attested, TickRecord, NewStamps, StampSignatures, PairSignatures, KeepTwo;
    KeepTwoPush(s.keys, key);
  }

  lemma KeepTwoPush(keys: seq<Key>, key: Key)
    requires |keys| <= 2
    ensures KeepTwo(keys + [key]) == (if keys == [] then [key] else [keys[|keys| - 1], key])
  {
    if |keys| == 2 {
      assert (keys + [key])[1..] == [keys[1], key];
      assert KeepTwo([keys[1], key]) == [keys[1], key];
    }
  }

  lemma AdvanceWindow(c: Crypto, s: Chrono, request: Option<Request>, key: Key, nonce: Nonce)
    requires WindowInv(s) && s.currentTick < U64_MAX && !HasKey(s.ticks, key)
    ensures WindowInv(Advance(c, s, request, key, nonce))
  {
    hide Advance, TickRecord, NewStamps, Attested, StampSignatures, PairSignatures;
    AdvanceShape(c, s, request, key, nonce);
    RecordFields(c, s.tbid, s.currentTick + 1, PreviousKey(s, key), key, Requests(request), nonce);
    WindowPush(s, Advance(c, s, request, key, nonce), key);
  }

  lemma WindowPush(s: Chrono, s': Chrono, key: Key)
    requires WindowInv(s) && s.currentTick < U64_MAX && !HasKey(s.ticks, key)
    requires s'.currentTick == s.currentTick + 1 && s'.stampCount == 0 && |s'.ticks| == |s.ticks| + 1
    requires s'.ticks[..|s.ticks|] == s.ticks && s'.ticks[|s.ticks|].publicKey == key
    requires s'.keys == (if s.ticks == [] then [key] else [PreviousKey(s, key), key])
    ensures WindowInv(s')
  {
    var t := |s.ticks|;
    assert forall i :: 0 <= i < t ==> s'.ticks[i] == s'.ticks[..t][i] == s.ticks[i];
    if s.keys != [] {
      assert s.keys[|s.keys| - 1] == s.ticks[t - 1].publicKey;
    }
    forall i, j | 0 <= i < j < t + 1 ensures s'.ticks[i].publicKey != s'.ticks[j].publicKey {
      if j == t {
        assert s.ticks[i].publicKey != key;
      }
    }
  }

  lemma RecordFields(c: Crypto, tbid: Tbid, tick: u64, prevKey: Key, key: Key, stamps: u64, nonce: Nonce)
    ensures var r := TickRecord(c, tbid, tick, prevKey, key, stamps, nonce);
            && r.chrononNumber == tick && r.publicKey == key && r.signatureAlgorithm == ED25519
            && r.nonce == nonce && r.stampCount == stamps && r.tbid == tbid && r.external == []
            && r.tbVersion == (if tick == 1 then 1 else 0)
  {
  }

  /** What is said of a prefix of the calendar stays true when records and stamps are appended. */
  lemma HistoryGrows(c: Crypto, s: Chrono, s': Chrono, x: Signed)
    requires s.tbid == s'.tbid && s.ticks <= s'.ticks && s.issued <= s'.issued && Explained(c, s, x)
    ensures Explained(c, s', x)
  {
    hide Attested;
    var n := x.purpose.tick;
    assert s'.ticks[n - 1] == s.ticks[n - 1];
    if x.purpose.StampAt? {
      var j :| 0 <= j < |s.issued| && s.issued[j].foretis.chrononNumber == n && x.message == Postcard(s.issued[j].foretis);
      assert s'.issued[j] == s.issued[j];
    }
  }

  lemma AdvanceTicks(c: Crypto, s: Chrono, s': Chrono, prev: Key, key: Key, stamps: u64, nonce: Nonce)
    requires WindowInv(s) && HistoryInv(c, s) && s.currentTick < U64_MAX && s'.tbid == s.tbid && prev == PreviousKey(s, key)
    requires s'.ticks == s.ticks + [TickRecord(c, s.tbid, s.currentTick + 1, prev, key, stamps, nonce)]
    ensures forall i: nat | i < |s'.ticks| :: HonestTick(c, s', i)
    ensures StampsRecorded(s'.ticks) == StampsRecorded(s.ticks) + stamps
  {
    hide TickRecord, Explained, GoodStamp, PreviousKey;
    RecordFields(c, s.tbid, s.currentTick + 1, prev, key, stamps, nonce);
    LastKeyIsLastTick(s, key);
    forall i: nat | i < |s'.ticks| ensures HonestTick(c, s', i) {
      if i < |s.ticks| {
        assert HonestTick(c, s, i);
      }
    }
    assert s'.ticks[..|s'.ticks| - 1] == s.ticks;
  }

  lemma StampGrows(c: Crypto, s: Chrono, s': Chrono, x: Issued)
    requires s.ticks <= s'.ticks && GoodStamp(c, s, x)
    ensures GoodStamp(c, s', x)
  {
    assert s'.ticks[x.foretis.chrononNumber - 1] == s.ticks[x.foretis.chrononNumber - 1];
  }

  lemma NewIssuedGood(c: Crypto, s: Chrono, s': Chrono, request: Option<Request>, key: Key, n: u64)
    requires n == |s.ticks| + 1 == |s'.ticks| && s'.ticks[n - 1].publicKey == key
    ensures forall x :: x in NewStamps(c, s, n, request, key) ==> GoodStamp(c, s', x)
  {
    hide Postcard;
  }

  /** The signatures a step adds are explained by the record and the stamp it adds. */
  lemma NewSignedExplained(c: Crypto, s: Chrono, s': Chrono, request: Option<Request>, prev: Key, key: Key, nonce: Nonce, n: u64)
    requires n == |s.ticks| + 1 && |s'.ticks| == n && s'.tbid == s.tbid
    requires s'.ticks[n - 1] == TickRecord(c, s.tbid, n, prev, key, Requests(request), nonce)
    requires s'.ticks[if n > 1 then n - 2 else 0].publicKey == prev
    requires s'.issued == s.issued + NewStamps(c, s, n, request, key)
    ensures forall x :: x in StampSignatures(NewStamps(c, s, n, request, key), n, key) ==> Explained(c, s', x)
    ensures forall x :: x in PairSignatures(Attested(c, s.tbid, n, prev, key, Requests(request), nonce), n, prev, key)
                        ==> Explained(c, s', x)
  {
    RecordFields(c, s.tbid, n, prev, key, Requests(request), nonce);
    hide TickRecord, Attested, Postcard, Explained;
    AttestExplained(c, s', n, prev, key, Requests(request), nonce, prev);
    AttestExplained(c, s', n, prev, key, Requests(request), nonce, key);
    if request.Some? {
      assert s'.issued[|s.issued|] == NewStamps(c, s, n, request, key)[0];
      StampExplained(c, s', n, prev, key, |s.issued|);
    }
  }

  lemma AttestExplained(c: Crypto, s: Chrono, n: u64, prev: Key, key: Key, stamps: u64, nonce: Nonce, signer: Key)
    requires 1 <= n <= |s.ticks| && (signer == key || signer == prev)
    requires s.ticks[n - 1].publicKey == key && s.ticks[n - 1].stampCount == stamps && s.ticks[n - 1].nonce == nonce
    requires s.ticks[if n > 1 then n - 2 else 0].publicKey == prev
    ensures Explained(c, s, Signed(signer, Attested(c, s.tbid, n, prev, key, stamps, nonce), AttestAt(n)))
  {
    hide Attested;
  }

  lemma StampExplained(c: Crypto, s: Chrono, n: u64, prev: Key, key: Key, j: nat)
    requires 1 <= n <= |s.ticks| && s.ticks[n - 1].publicKey == key
    requires s.ticks[if n > 1 then n - 2 else 0].publicKey == prev
    requires j < |s.issued| && s.issued[j].foretis.chrononNumber == n
    ensures Explained(c, s, Signed(key, Postcard(s.issued[j].foretis), StampAt(n)))
  {
    hide Postcard;
  }

  lemma AdvanceHistory(c: Crypto, s: Chrono, request: Option<Request>, key: Key, nonce: Nonce)
    requires ChronoInv(c, s) && s.currentTick < U64_MAX
    ensures HistoryInv(c, Advance(c, s, request, key, nonce))
  {
    hide Advance, TickRecord, Attested, Postcard, Explained, GoodStamp, HonestTick, NewStamps, StampSignatures, PairSignatures;
    AdvanceShape(c, s, request, key, nonce);
    var s' := Advance(c, s, request, key, nonce);
    var n: u64, prev := s.currentTick + 1, PreviousKey(s, key);
    RecordFields(c, s.tbid, n, prev, key, Requests(request), nonce);
    AdvanceTicks(c, s, s', prev, key, Requests(request), nonce);
    assert s'.ticks[if n > 1 then n - 2 else 0].publicKey == prev by {
      LastKeyIsLastTick(s, key);
    }
    hide WindowInv, PreviousKey;
    NewIssuedGood(c, s, s', request, key, n);
    NewSignedExplained(c, s, s', request, prev, key, nonce, n);
    forall a | 0 <= a < |s'.signed| ensures Explained(c, s', s'.signed[a]) {
      if a < |s.signed| {
        HistoryGrows(c, s, s', s.signed[a]);
      }
    }
    forall a | 0 <= a < |s'.issued| ensures GoodStamp(c, s', s'.issued[a]) {
      if a < |s.issued| {
        StampGrows(c, s, s', s.issued[a]);
      }
    }
  }

  lemma LastKeyIsLastTick(s: Chrono, key: Key)
    requires WindowInv(s)
    ensures PreviousKey(s, key) == if s.ticks == [] then key else s.ticks[|s.ticks| - 1].publicKey
  {
    if s.keys != [] {
      assert s.keys[|s.keys| - 1] == s.ticks[|s.ticks| - 1].publicKey;
    }
  }

  /** Going dormant and waking up change nothing the invariant speaks of. */
  lemma NextKeepsInv(c: Crypto, s: Chrono, e: Event)
    requires ChronoInv(c, s) && Possible(s, e)
    ensures ChronoInv(c, Next(c, s, e))
  {
    match e
    case Stamp(request, key, nonce) =>
      if !s.dormant {
        AdvanceWindow(c, s, Some(request), key, nonce);
        AdvanceHistory(c, s, Some(request), key, nonce);
      }
    case DaemonTick(key, nonce) =>
      if !s.dormant {
        AdvanceWindow(c, s, None, key, nonce);
        AdvanceHistory(c, s, None, key, nonce);
      }
    case SetDormant(d) =>
      DormancyIrrelevant(c, s, d);
  }

  lemma DormancyIrrelevant(c: Crypto, s: Chrono, d: bool)
    requires ChronoInv(c, s)
    ensures ChronoInv(c, s.(dormant := d))
  {
    var s' := s.(dormant := d);
    hide TickRecord, Attested, Postcard;
    forall i: nat | i < |s'.ticks| ensures HonestTick(c, s', i) {
      assert HonestTick(c, s, i);
    }
    forall a | 0 <= a < |s.signed| ensures Explained(c, s', s'.signed[a]) {
      HistoryGrows(c, s, s', s.signed[a]);
    }
    forall a | 0 <= a < |s.issued| ensures GoodStamp(c, s', s'.issued[a]) {
      StampGrows(c, s, s', s.issued[a]);
    }
  }

  lemma {:induction false} RunKeepsInv(c: Crypto, states: seq<Chrono>, events: seq<Event>, k: nat)
    requires Run(c, states, events) && k <= |events|
    ensures ChronoInv(c, states[k])
  {
    if k > 0 {
      RunKeepsInv(c, states, events, k - 1);
      NextKeepsInv(c, states[k - 1], events[k - 1]);
    }
  }
}
