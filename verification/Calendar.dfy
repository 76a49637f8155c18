/** The calendar object of p2p/core-engine/src/foretias/calendar.rs. */
module Calendar {
  import opened Encoding
  import opened Prelude
  import opened Records
  import opened CalendarSpec

  class Calendar {
    var ticks: seq<ChrononRecord>

    constructor ()
      ensures ticks == []
    {
      ticks := [];
    }

    method Append(record: ChrononRecord) returns (ok: bool)
      modifies this
      ensures ok <==> Appendable(old(ticks), record)
      ensures old(Increasing(ticks)) ==> (ok <==> forall i :: 0 <= i < |old(ticks)| ==> old(ticks)[i].chrononNumber < record.chrononNumber)
      ensures ticks == old(ticks) + if ok then [record] else []
      ensures old(Increasing(ticks)) ==> Increasing(ticks)
    {
      if |ticks| > 0 && record.chrononNumber <= ticks[|ticks| - 1].chrononNumber {
        return false;
      }
      ticks := ticks + [record];
      return true;
    }

    /** Binary search. */
    method TickAt(n: u64) returns (r: Option<ChrononRecord>)
      requires Increasing(ticks)
      ensures r.Some? ==> r.value in ticks && r.value.chrononNumber == n
      ensures r.None? ==> forall i :: 0 <= i < |ticks| ==> ticks[i].chrononNumber != n
    {
      var lo, hi := 0, |ticks|;
      while lo < hi
        invariant 0 <= lo <= hi <= |ticks|
        invariant forall i :: 0 <= i < lo ==> ticks[i].chrononNumber < n
        invariant forall i :: hi <= i < |ticks| ==> ticks[i].chrononNumber > n
      {
        var mid := (lo + hi) / 2;
        if ticks[mid].chrononNumber < n {
          lo := mid + 1;
        } else if ticks[mid].chrononNumber > n {
          hi := mid;
        } else {
          return Some(ticks[mid]);
        }
      }
      return None;
    }

    method Check(c: Crypto, tbid: bytes, start: Option<u64>, end: Option<u64>) returns (results: Option<seq<bool>>)
      ensures results == IntegrityCheck(c, tbid, ticks, start, end)
    {
      hide VerifyPair, PairResults;
      results := CheckPairs(c, tbid, InRange(ticks, if start.Some? then start.value else 0, if end.Some? then end.value else U64_MAX));
    }

    method AddExternalAttestation(n: u64, a: Attestation) returns (ok: bool)
      modifies this
      ensures ticks == WithAttestation(old(ticks), n, a)
      ensures ok <==> exists i :: 0 <= i < |old(ticks)| && old(ticks)[i].chrononNumber == n
    {
      for i := 0 to |ticks|
        invariant ticks == old(ticks)
        invariant forall j :: 0 <= j < i ==> ticks[j].chrononNumber != n
      {
        if ticks[i].chrononNumber == n {
          assert FirstAt(ticks, n) == i;
          ticks := ticks[i := ticks[i].(external := ticks[i].external + [a])];
          return true;
        }
      }
      return false;
    }
  }

  /** The loop over consecutive records, given up as soon as a check fails to run. */
  method CheckPairs(c: Crypto, tbid: bytes, records: seq<ChrononRecord>) returns (results: Option<seq<bool>>)
    ensures results == PairResults(c, tbid, records)
  {
    hide VerifyPair;
    if |records| < 2 {
      return Some([]);
    }
    var out: seq<bool> := [];
    for i := 0 to |records| - 1
      invariant PairResults(c, tbid, records[..i + 1]) == Some(out)
    {
      var valid := VerifyPair(c, tbid, records[i], records[i + 1]);
      assert records[..i + 2][..i + 1] == records[..i + 1];
      if valid == Error {
        PairErrorSpreads(c, tbid, records, i + 2);
        return None;
      }
      out := out + [valid == Valid];
    }
    assert records[..|records|] == records;
    return Some(out);
  }

  lemma {:induction false} PairErrorSpreads(c: Crypto, tbid: bytes, ticks: seq<ChrononRecord>, n: nat)
    requires n <= |ticks| && PairResults(c, tbid, ticks[..n]).None?
    ensures PairResults(c, tbid, ticks).None?
    decreases |ticks|
  {
    hide VerifyPair;
    if n == |ticks| {
      assert ticks[..n] == ticks;
    } else {
      var init := ticks[..|ticks| - 1];
      assert init[..n] == ticks[..n];
      PairErrorSpreads(c, tbid, init, n);
    }
  }
}
