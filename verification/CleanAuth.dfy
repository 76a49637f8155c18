/** The record gates of p2p/core-engine/src/foretias/clean_auth.rs, against the checks on whole calendars. */
module CleanAuth {
  import opened Encoding
  import opened Prelude
  import opened Records
  import opened CalendarSpec
  import opened ChronoSpec
  import opened ChronoProofs
  import opened ChronoSoundness

  datatype GateResult = Accepted | ChainBreak | InvalidLength | NotYetImplemented | InvalidSignature | CryptoError

  /** The gate for a tick record, given the trusted record before it, if any. */
  function ChrononGate(c: Crypto, prev: Option<ChrononRecord>, r: ChrononRecord): GateResult {
    match prev
    case Some(p) =>
      (match VerifyPair(c, Hex(p.tbid), p, r)
       case Error => CryptoError
       case Invalid => ChainBreak
       case Valid => Accepted)
    case None =>
      if r.chrononNumber != 1 then ChainBreak
      else if r.publicKey == [] then InvalidLength
      else if r.tbVersion >= 1 then NotYetImplemented
      else Accepted
  }

  datatype SigAlgorithm = Ed25519 | DualKey

  datatype SignatureEntry = SignatureEntry(algorithm: SigAlgorithm, sig: bytes)

  function AlgorithmName(a: SigAlgorithm): string {
    match a
    case Ed25519 => ED25519
    case DualKey => "SLH-DSA"
  }

  /** The gate for a stamp, given the trusted record of its tick. */
  function ForetisGate(c: Crypto, record: ChrononRecord, f: ForetisRecord, signatures: seq<SignatureEntry>, content: bytes):
    GateResult {
    if f.chrononNumber != record.chrononNumber then ChainBreak
    else if c.sha256(content) != f.contentHash then InvalidSignature
    else
      var sig := if signatures == [] then [] else signatures[0].sig;
      var name := if signatures == [] then ED25519 else AlgorithmName(signatures[0].algorithm);
      match VerifyStamp(c, f, sig, name, content, [record])
      case Error => CryptoError
      case Invalid => InvalidSignature
      case Valid => Accepted
  }

  /** Records fed through the gate one by one, each trusted once accepted. */
  predicate GateAcceptsAll(c: Crypto, records: seq<ChrononRecord>) {
    |records| < 2
    || (GateAcceptsAll(c, records[..|records| - 1])
        && ChrononGate(c, Some(records[|records| - 2]), records[|records| - 1]) == Accepted)
  }

  lemma {:induction false} GateIsLinked(c: Crypto, tbid: Tbid, records: seq<ChrononRecord>)
    requires forall i :: 0 <= i < |records| - 1 ==> records[i].tbid == tbid
    ensures GateAcceptsAll(c, records) <==> Linked(c, Hex(tbid), records)
  {
    hide VerifyPair, Hex;
    if |records| >= 2 {
      var n := |records|;
      var init := records[..n - 1];
      assert forall i :: 0 <= i < n - 1 ==> init[i] == records[i];
      GateIsLinked(c, tbid, init);
      if Linked(c, Hex(tbid), records) {
        assert VerifyPair(c, Hex(tbid), records[n - 2], records[n - 1]) == Valid;
        forall i | 0 < i < n - 1 ensures VerifyPair(c, Hex(tbid), init[i - 1], init[i]) == Valid {
          assert VerifyPair(c, Hex(tbid), records[i - 1], records[i]) == Valid;
        }
      }
      if GateAcceptsAll(c, records) {
        forall i | 0 < i < n ensures VerifyPair(c, Hex(tbid), records[i - 1], records[i]) == Valid {
          if i < n - 1 {
            assert VerifyPair(c, Hex(tbid), init[i - 1], init[i]) == Valid;
          }
        }
      }
    }
  }

  /** Incremental equals batch: from a trusted first record, the gate accepts the rest one by one exactly when the
      calendar's integrity check is all true, provided the records but the last carry the calendar's identity. */
  lemma IncrementalEqualsBatch(c: Crypto, tbid: Tbid, records: seq<ChrononRecord>)
    requires forall i :: 0 <= i < |records| - 1 ==> records[i].tbid == tbid
    ensures GateAcceptsAll(c, records) <==> AllTrue(IntegrityCheck(c, Hex(tbid), records, None, None))
  {
    hide VerifyPair, Hex, PairResults, GateAcceptsAll;
    GateIsLinked(c, tbid, records);
    FullRange(records);
    PairResultsExactly(c, Hex(tbid), records);
  }

  /** In every history of a node the gate accepts every record after the first, but never the first itself: a
      dual-key first record is refused as not implemented, so it has to be trusted by other means. */
  lemma HonestRecordsThroughTheGate(c: Crypto, states: seq<Chrono>, events: seq<Event>, k: nat)
    requires Correct(c) && Run(c, states, events) && k <= |events|
    ensures GateAcceptsAll(c, states[k].ticks)
    ensures states[k].ticks != [] ==> ChrononGate(c, None, states[k].ticks[0]) == NotYetImplemented
  {
    hide VerifyPair, Hex, Next, WindowInv, Correct, HistoryInv;
    RunKeepsInv(c, states, events, k);
    var s := states[k];
    HonestLinks(c, s);
    forall i | 0 <= i < |s.ticks| ensures s.ticks[i].tbid == s.tbid {
      HonestFields(c, s, i);
    }
    GateIsLinked(c, s.tbid, s.ticks);
    if s.ticks != [] {
      HonestFields(c, s, 0);
      FirstRecordKey(c, s);
    }
  }

  lemma FirstRecordKey(c: Crypto, s: Chrono)
    requires HistoryInv(c, s) && s.ticks != []
    ensures |s.ticks[0].publicKey| == 32
  {
    HonestFields(c, s, 0);
  }

  /** What the gate says of an issued stamp against any record of the calendar: accepted against the record of its own
      tick for contents with the stamped hash. */
  lemma StampsThroughTheGate(c: Crypto, states: seq<Chrono>, events: seq<Event>, k: nat, a: nat, n: nat, content: bytes)
    requires Correct(c) && Run(c, states, events) && k <= |events| && a < |states[k].issued| && n < |states[k].ticks|
    ensures var s := states[k];
            var x := s.issued[a];
            ForetisGate(c, s.ticks[n], x.foretis, [SignatureEntry(Ed25519, x.signature)], content)
            == if x.foretis.chrononNumber != n + 1 then ChainBreak
               else if c.sha256(content) != c.sha256(x.content) then InvalidSignature
               else Accepted
  {
    hide Next, Postcard, WindowInv, Explained, TickRecord;
    RunKeepsInv(c, states, events, k);
    var s := states[k];
    assert GoodStamp(c, s, s.issued[a]);
    NumbersAreConsecutive(c, s);
  }

  /** The first signature of the list and the algorithm it is checked with; an empty list counts as an empty Ed25519
      signature. */
  function Presented(signatures: seq<SignatureEntry>): (bytes, string) {
    if signatures == [] then ([], "Ed25519")
    else if signatures[0].algorithm == DualKey then (signatures[0].sig, "SLH-DSA")
    else (signatures[0].sig, "Ed25519")
  }

  /** Only issued stamps pass the gate: with any list of signatures, a stamp accepted against a record of the node's
      calendar was, short of a forgery by its first entry, issued for that very tick and a content with that hash. */
  lemma OnlyIssuedStampsPass(c: Crypto, states: seq<Chrono>, events: seq<Event>, k: nat, n: nat,
                             f: ForetisRecord, signatures: seq<SignatureEntry>, content: bytes)
    requires Run(c, states, events) && k <= |events| && n < |states[k].ticks|
    requires NoForgedStamp(c, states[k], f, Presented(signatures).0, Presented(signatures).1)
    requires ForetisGate(c, states[k].ticks[n], f, signatures, content) == Accepted
    ensures WasIssued(c, states[k], f, content) && f.chrononNumber == n + 1
  {
    hide Next, Postcard, WindowInv, Explained, HonestTick;
    RunKeepsInv(c, states, events, k);
    var s := states[k];
    NumbersAreConsecutive(c, s);
    assert HasKey(s.ticks, s.ticks[n].publicKey);
    SignedStampWasIssued(c, s, s.ticks[n].publicKey, f);
    var a :| 0 <= a < |s.issued| && s.issued[a].foretis == f;
    assert GoodStamp(c, s, s.issued[a]);
  }

  /** Where the primitives know neither an algorithm of that name nor an empty signature, an entry of the dual-key kind is
      an error and an empty list is refused. */
  lemma OddListsDoNotPass(c: Crypto, r: ChrononRecord, f: ForetisRecord, signatures: seq<SignatureEntry>, content: bytes)
    requires forall m: bytes, sig: bytes :: c.verify(r.publicKey, "SLH-DSA", m, sig) == Error
    requires forall m: bytes :: c.verify(r.publicKey, "Ed25519", m, []) == Invalid
    requires f.chrononNumber == r.chrononNumber && c.sha256(content) == f.contentHash
    ensures signatures == [] ==> ForetisGate(c, r, f, signatures, content) == InvalidSignature
    ensures signatures != [] && signatures[0].algorithm == DualKey ==> ForetisGate(c, r, f, signatures, content) == CryptoError
  {
    hide Postcard;
  }

  /** The gate without a predecessor accepts exactly first records of version 0 with a key. */
  lemma FirstRecordGate(c: Crypto, r: ChrononRecord)
    ensures ChrononGate(c, None, r) == Accepted <==> r.chrononNumber == 1 && r.publicKey != [] && r.tbVersion == 0
    ensures ChrononGate(c, None, r) == ChainBreak <==> r.chrononNumber != 1
    ensures ChrononGate(c, None, r) == InvalidLength <==> r.chrononNumber == 1 && r.publicKey == []
  {
  }

  /** The gate with a predecessor tells a break from a check that could not be carried out. */
  lemma GateTellsErrors(c: Crypto, prev: ChrononRecord, r: ChrononRecord)
    ensures ChrononGate(c, Some(prev), r) == CryptoError <==> VerifyPair(c, Hex(prev.tbid), prev, r) == Error
    ensures ChrononGate(c, Some(prev), r) == ChainBreak <==> VerifyPair(c, Hex(prev.tbid), prev, r) == Invalid
  {
    hide VerifyPair;
  }
}
