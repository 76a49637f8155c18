/** The ticking node (p2p/core-engine/src/chronomatter/mod.rs), updated in place. */
module Chronomatter {
  import opened Encoding
  import opened Prelude
  import opened Records
  import opened Calendar
  import opened CalendarSpec
  import opened ChronoSpec

  class Node {
    const crypto: Crypto
    const tbid: Tbid
    const tbn: bytes
    const observer: Calendar
    var currentTick: nat
    var keypairs: seq<Key>
    var isDormant: bool
    var stampCount: nat
    ghost var signed: seq<Signed>
    ghost var issued: seq<Issued>

    ghost function View(): Chrono
      reads this, observer
    {
      Chrono(tbid, tbn, currentTick, keypairs, isDormant, stampCount, observer.ticks, signed, issued)
    }

    ghost predicate Valid()
      reads this, observer
    {
      ChronoInv(crypto, View())
    }

    constructor (crypto: Crypto, tbid: Tbid, tbn: bytes, observer: Calendar)
      ensures View() == Initial(tbid, tbn).(ticks := observer.ticks)
      ensures observer.ticks == [] ==> Valid()
      ensures this.crypto == crypto && this.observer == observer
    {
      this.crypto, this.tbid, this.tbn, this.observer := crypto, tbid, tbn, observer;
      currentTick, keypairs, isDormant, stampCount := 0, [], false, 0;
      signed, issued := [], [];
    }

    method GenerateAndStoreKeypair(key: Key)
      modifies this`keypairs
      ensures keypairs == KeepTwo(old(keypairs) + [key])
    {
      keypairs := keypairs + [key];
      while |keypairs| > 2
        invariant KeepTwo(keypairs) == KeepTwo(old(keypairs) + [key])
      {
        keypairs := keypairs[1..];
      }
    }

    /** Signs with the last key but `relative`, and remembers in the history why. */
    method SignWithKeypair(relative: nat, message: bytes, ghost purpose: Purpose) returns (sig: bytes)
      requires relative < |keypairs|
      modifies this`signed
      ensures var key := keypairs[|keypairs| - 1 - relative];
              sig == crypto.sign(key, message) && signed == old(signed) + [Signed(key, message, purpose)]
    {
      var key := keypairs[|keypairs| - (relative + 1)];
      sig := crypto.sign(key, message);
      signed := signed + [Signed(key, message, purpose)];
    }

    method BuildTickRecord(tick: u64, newPub: Key, nonce: Nonce) returns (record: ChrononRecord)
      requires 1 <= |keypairs| <= 2 && keypairs[|keypairs| - 1] == newPub && (tick == 1 <==> |keypairs| == 1)
      requires tick > 0 && stampCount <= U64_MAX
      modifies this`stampCount, this`signed
      ensures stampCount == 0
      ensures var prev := keypairs[0];
              && record == TickRecord(crypto, tbid, tick, prev, newPub, old(stampCount), nonce)
              && signed == old(signed)
                           + PairSignatures(Attested(crypto, tbid, tick, prev, newPub, old(stampCount), nonce), tick, prev, newPub)
    {
      hide GenesisPairBlob, PairBlob, GenesisBlob;
      var tbidText := Hex(tbid);
      if tick == 1 {
        var genesisSig := crypto.tbidSign(tbid, GenesisBlob(tbid, tick, newPub));
        var stamps := stampCount;
        stampCount := 0;
        var blob := GenesisPairBlob(tbidText, tick, newPub, genesisSig, stamps, nonce);
        var edSig := SignWithKeypair(0, blob, AttestAt(tick));
        record := ChrononRecord(tick, newPub, ED25519, edSig + genesisSig, edSig + genesisSig, nonce, stamps, [], 1, tbid);
      } else {
        var stamps := stampCount;
        stampCount := 0;
        var prevPub := keypairs[|keypairs| - 2];
        var blob := PairBlob(tbidText, tick - 1, prevPub, tick, newPub, stamps, nonce);
        var forwardSig := SignWithKeypair(1, blob, AttestAt(tick));
        var backwardSig := SignWithKeypair(0, blob, AttestAt(tick));
        record := ChrononRecord(tick, newPub, ED25519, forwardSig, backwardSig, nonce, stamps, [], 0, tbid);
      }
    }

    /** Builds the record of a tick and hands it to the observer, which appends it. */
    method RecordTick(tick: u64, newPub: Key, nonce: Nonce)
      requires 1 <= |keypairs| <= 2 && keypairs[|keypairs| - 1] == newPub && (tick == 1 <==> |keypairs| == 1)
      requires tick > 0 && stampCount <= U64_MAX
      requires forall i :: 0 <= i < |observer.ticks| ==> observer.ticks[i].chrononNumber < tick
      modifies this`stampCount, this`signed, observer
      ensures stampCount == 0
      ensures observer.ticks == old(observer.ticks) + [TickRecord(crypto, tbid, tick, keypairs[0], newPub, old(stampCount), nonce)]
      ensures signed == old(signed)
                        + PairSignatures(Attested(crypto, tbid, tick, keypairs[0], newPub, old(stampCount), nonce),
                                         tick, keypairs[0], newPub)
    {
      hide TickRecord, Attested, PairSignatures;
      RecordFields(crypto, tbid, tick, keypairs[0], newPub, stampCount, nonce);
      var record := BuildTickRecord(tick, newPub, nonce);
      var appended := observer.Append(record);
    }

    /** A stamp under a new tick; refused while dormant. */
    method Stamp(request: Request, key: Key, nonce: Nonce) returns (stamped: Option<Issued>)
      requires Valid() && Possible(View(), ChronoSpec.Stamp(request, key, nonce))
      modifies this, observer
      ensures Valid() && View() == Next(crypto, old(View()), ChronoSpec.Stamp(request, key, nonce))
      ensures stamped.None? <==> old(isDormant)
      ensures issued == old(issued) + if stamped.Some? then [stamped.value] else []
      ensures stamped.Some? ==> AnswersRequest(crypto, old(View()), stamped.value, request, old(currentTick) + 1, key)
    {
      hide TickRecord, Attested, Postcard, HistoryInv, WindowInv, PairSignatures, Advance, KeepTwo, PreviousKey;
      ghost var before := View();
      NextKeepsInv(crypto, before, ChronoSpec.Stamp(request, key, nonce));
      if isDormant {
        return None;
      }
      AdvanceShape(crypto, before, Some(request), key, nonce);
      WindowBounds(crypto, before, key);
      currentTick := currentTick + 1;
      stampCount := stampCount + 1;
      GenerateAndStoreKeypair(key);
      KeepTwoPush(before.keys, key);
      var foretis := ForetisRecord(currentTick, crypto.sha256(request.content), tbid, request.echo, tbn, request.referenceTime);
      var sig := SignWithKeypair(0, Postcard(foretis), StampAt(currentTick));
      RecordTick(currentTick, key, nonce);
      var issuedStamp := Issued(foretis, sig, ED25519, request.content);
      issued := issued + [issuedStamp];
      return Some(issuedStamp);
    }

    method Tick(key: Key, nonce: Nonce)
      requires Valid() && Possible(View(), DaemonTick(key, nonce))
      modifies this, observer
      ensures Valid() && View() == Next(crypto, old(View()), DaemonTick(key, nonce))
    {
      hide TickRecord, Attested, Postcard, HistoryInv, WindowInv, PairSignatures, Advance, KeepTwo, PreviousKey;
      ghost var before := View();
      NextKeepsInv(crypto, before, DaemonTick(key, nonce));
      if isDormant {
        return;
      }
      AdvanceShape(crypto, before, None, key, nonce);
      WindowBounds(crypto, before, key);
      assert before.issued + [] == before.issued && before.signed + [] == before.signed;
      currentTick := currentTick + 1;
      GenerateAndStoreKeypair(key);
      KeepTwoPush(before.keys, key);
      RecordTick(currentTick, key, nonce);
    }

    /** The node's own check of a calendar, limited in length. */
    method CheckCalendar(calendar: Calendar, calendarTbid: Tbid, start: Option<u64>, end: Option<u64>)
      returns (results: Option<seq<bool>>)
      ensures results == NodeIntegrityCheck(crypto, Hex(calendarTbid), calendar.ticks, start, end)
    {
      hide VerifyPair, PairResults, InRange, GetFrom;
      var lo := if start.Some? then start.value else 0;
      var records := GetFrom(calendar.ticks, lo, CHECKED_RECORDS);
      results := CheckPairs(crypto, Hex(calendarTbid), InRange(records, lo, if end.Some? then end.value else U64_MAX));
    }

    method SetDormantFlag(dormant: bool)
      requires Valid()
      modifies this`isDormant
      ensures Valid() && View() == Next(crypto, old(View()), SetDormant(dormant))
    {
      NextKeepsInv(crypto, View(), SetDormant(dormant));
      isDormant := dormant;
    }
  }

  /** The next tick number is above every number in the calendar, so the observer never refuses a record. */
  lemma WindowBounds(c: Crypto, s: Chrono, key: Key)
    requires ChronoInv(c, s)
    ensures |s.keys| <= 2 && s.stampCount == 0 && (s.keys == [] <==> s.currentTick == 0)
    ensures PreviousKey(s, key) == if s.keys == [] then key else s.keys[|s.keys| - 1]
    ensures forall i :: 0 <= i < |s.ticks| ==> s.ticks[i].chrononNumber <= s.currentTick
  {
    hide TickRecord, Explained, GoodStamp;
    forall i | 0 <= i < |s.ticks| ensures s.ticks[i].chrononNumber <= s.currentTick {
      assert HonestTick(c, s, i);
      var r := s.ticks[i];
      RecordFields(c, s.tbid, i + 1, s.ticks[if i > 0 then i - 1 else 0].publicKey, r.publicKey, r.stampCount, r.nonce);
    }
  }
}
