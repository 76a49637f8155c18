/** The append-only calendar (p2p/core-engine/src/foretias/calendar.rs) and the two ways of checking its chain. */
module CalendarSpec {
  import opened Encoding
  import opened Prelude
  import opened Records

  const U64_MAX: nat := 0xFFFF_FFFF_FFFF_FFFF

  ghost predicate Increasing(ticks: seq<ChrononRecord>) {
    forall i, j :: 0 <= i < j < |ticks| ==> ticks[i].chrononNumber < ticks[j].chrononNumber
  }

  predicate Appendable(ticks: seq<ChrononRecord>, r: ChrononRecord) {
    ticks == [] || ticks[|ticks| - 1].chrononNumber < r.chrononNumber
  }

  /** The records whose tick number lies in lo..hi, bounds included. */
  function InRange(ticks: seq<ChrononRecord>, lo: nat, hi: nat): seq<ChrononRecord> {
    if ticks == [] then []
    else (if lo <= ticks[0].chrononNumber <= hi then [ticks[0]] else []) + InRange(ticks[1..], lo, hi)
  }

  function Take<T>(s: seq<T>, count: nat): seq<T> {
    if count < |s| then s[..count] else s
  }

  /** At most `count` records from tick number n on. */
  function GetFrom(ticks: seq<ChrononRecord>, n: nat, count: nat): seq<ChrononRecord> {
    Take(InRange(ticks, n, U64_MAX), count)
  }

  /** Pairwise results over a list of records; no result once a check fails to run. */
  function PairResults(c: Crypto, tbid: bytes, ticks: seq<ChrononRecord>): Option<seq<bool>> {
    if |ticks| < 2 then Some([])
    else
      var n := |ticks|;
      var before := PairResults(c, tbid, ticks[..n - 1]);
      var last := VerifyPair(c, tbid, ticks[n - 2], ticks[n - 1]);
      if before.None? || last == Error then None else Some(before.value + [last == Valid])
  }

  function IntegrityCheck(c: Crypto, tbid: bytes, ticks: seq<ChrononRecord>, start: Option<u64>, end: Option<u64>):
    Option<seq<bool>> {
    PairResults(c, tbid, InRange(ticks, if start.Some? then start.value else 0, if end.Some? then end.value else U64_MAX))
  }

  /** All results are there and all are true. */
  predicate AllTrue(results: Option<seq<bool>>) {
    results.Some? && forall i :: 0 <= i < |results.value| ==> results.value[i]
  }

  ghost predicate Linked(c: Crypto, tbid: bytes, ticks: seq<ChrononRecord>) {
    forall i :: 0 < i < |ticks| ==> VerifyPair(c, tbid, ticks[i - 1], ticks[i]) == Valid
  }

  /** The check is all true exactly when every record follows from the one before it. */
  lemma {:induction false} PairResultsExactly(c: Crypto, tbid: bytes, ticks: seq<ChrononRecord>)
    ensures AllTrue(PairResults(c, tbid, ticks)) <==> Linked(c, tbid, ticks)
    ensures PairResults(c, tbid, ticks).Some? && ticks != [] ==> |PairResults(c, tbid, ticks).value| == |ticks| - 1
  {
    hide VerifyPair;
    if |ticks| >= 2 {
      var n := |ticks|;
      var init := ticks[..n - 1];
      PairResultsExactly(c, tbid, init);
      if Linked(c, tbid, ticks) {
        assert forall i :: 0 < i < |init| ==> VerifyPair(c, tbid, ticks[i - 1], ticks[i]) == Valid;
        assert Linked(c, tbid, init);
        assert VerifyPair(c, tbid, ticks[n - 2], ticks[n - 1]) == Valid;
      }
      if AllTrue(PairResults(c, tbid, ticks)) {
        var r, s := PairResults(c, tbid, ticks).value, PairResults(c, tbid, init).value;
        assert forall i :: 0 <= i < |s| ==> s[i] == r[i];
        assert r[|s|];
        forall i | 0 < i < n ensures VerifyPair(c, tbid, ticks[i - 1], ticks[i]) == Valid {
          if i < n - 1 {
            assert init[i - 1] == ticks[i - 1] && init[i] == ticks[i];
          }
        }
      }
    }
  }

  /** Result i is that of records i and i+1. */
  lemma {:induction false} PairResultAt(c: Crypto, tbid: bytes, ticks: seq<ChrononRecord>, i: nat)
    requires PairResults(c, tbid, ticks).Some? && i + 1 < |ticks|
    ensures i < |PairResults(c, tbid, ticks).value|
    ensures PairResults(c, tbid, ticks).value[i] <==> VerifyPair(c, tbid, ticks[i], ticks[i + 1]) == Valid
  {
    hide VerifyPair;
    var init := ticks[..|ticks| - 1];
    PairResultsExactly(c, tbid, ticks);
    PairResultsExactly(c, tbid, init);
    if i + 1 < |init| {
      PairResultAt(c, tbid, init, i);
    }
  }

  /** How many leading records have a tick number below n. */
  function Below(ticks: seq<ChrononRecord>, n: nat): (k: nat)
    ensures k <= |ticks|
  {
    if ticks == [] || ticks[0].chrononNumber >= n then 0 else 1 + Below(ticks[1..], n)
  }

  lemma {:induction false} BelowExactly(ticks: seq<ChrononRecord>, n: nat, k: nat)
    requires Increasing(ticks) && k < |ticks|
    ensures k < Below(ticks, n) <==> ticks[k].chrononNumber < n
  {
    if ticks[0].chrononNumber < n && k > 0 {
      BelowExactly(ticks[1..], n, k - 1);
    }
  }

  lemma BelowStep(ticks: seq<ChrononRecord>, n: nat)
    requires Increasing(ticks) && ticks != []
    ensures Increasing(ticks[1..])
    ensures Below(ticks, n) == if ticks[0].chrononNumber < n then 1 + Below(ticks[1..], n) else 0
    ensures ticks[0].chrononNumber >= n ==> Below(ticks[1..], n) == 0
  {
  }

  lemma InRangeStep(ticks: seq<ChrononRecord>, lo: nat, hi: nat)
    requires ticks != []
    ensures InRange(ticks, lo, hi)
            == (if lo <= ticks[0].chrononNumber <= hi then [ticks[0]] else []) + InRange(ticks[1..], lo, hi)
  {
  }

  lemma SliceBehind<T>(s: seq<T>, i: nat, j: nat)
    requires s != [] && i <= j < |s|
    ensures s[1 + i..1 + j] == s[1..][i..j] && s[0..1 + j] == [s[0]] + s[1..][0..j]
  {
  }

  /** In a calendar a range of tick numbers is a run of neighbouring records. */
  lemma {:induction false} RangeIsSlice(ticks: seq<ChrononRecord>, lo: nat, hi: nat)
    requires Increasing(ticks) && lo <= hi + 1
    ensures Below(ticks, lo) <= Below(ticks, hi + 1)
    ensures InRange(ticks, lo, hi) == ticks[Below(ticks, lo)..Below(ticks, hi + 1)]
  {
    if ticks != [] {
      hide Below, Increasing, InRange;
      var rest := ticks[1..];
      BelowStep(ticks, lo);
      BelowStep(ticks, hi + 1);
      InRangeStep(ticks, lo, hi);
      RangeIsSlice(rest, lo, hi);
      SliceBehind(ticks, Below(rest, lo), Below(rest, hi + 1));
    }
  }

  lemma {:induction false} EmptyRange(ticks: seq<ChrononRecord>, lo: nat, hi: nat)
    requires lo > hi
    ensures InRange(ticks, lo, hi) == []
  {
    if ticks != [] {
      EmptyRange(ticks[1..], lo, hi);
    }
  }

  lemma {:induction false} FullRange(ticks: seq<ChrononRecord>)
    ensures InRange(ticks, 0, U64_MAX) == ticks
    ensures Below(ticks, U64_MAX + 1) == |ticks|
  {
    if ticks != [] {
      FullRange(ticks[1..]);
    }
  }

  /** A linked calendar passes the check over every range. */
  lemma LinkedPassesEveryRange(c: Crypto, tbid: bytes, ticks: seq<ChrononRecord>, start: Option<u64>, end: Option<u64>)
    requires Increasing(ticks) && Linked(c, tbid, ticks)
    ensures AllTrue(IntegrityCheck(c, tbid, ticks, start, end))
  {
    hide VerifyPair;
    var lo: nat := if start.Some? then start.value else 0;
    var hi: nat := if end.Some? then end.value else U64_MAX;
    if lo > hi {
      EmptyRange(ticks, lo, hi);
    } else {
      RangeIsSlice(ticks, lo, hi);
      var i := Below(ticks, lo);
      var slice := InRange(ticks, lo, hi);
      forall k | 0 < k < |slice| ensures VerifyPair(c, tbid, slice[k - 1], slice[k]) == Valid {
        assert slice[k - 1] == ticks[i + k - 1] && slice[k] == ticks[i + k];
      }
      PairResultsExactly(c, tbid, slice);
    }
  }

  /** The index of the first record with tick number n. */
  function FirstAt(ticks: seq<ChrononRecord>, n: u64): (i: nat)
    ensures i <= |ticks|
    ensures i < |ticks| ==> ticks[i].chrononNumber == n
    ensures forall j :: 0 <= j < i ==> ticks[j].chrononNumber != n
  {
    if ticks == [] then 0 else if ticks[0].chrononNumber == n then 0 else 1 + FirstAt(ticks[1..], n)
  }

  /** The calendar with an attestation added to the first record of tick n. */
  function WithAttestation(ticks: seq<ChrononRecord>, n: u64, a: Attestation): seq<ChrononRecord> {
    var i := FirstAt(ticks, n);
    if i == |ticks| then ticks else ticks[i := ticks[i].(external := ticks[i].external + [a])]
  }

  /** Only the first record of that tick changes, and only by the attestation behind the others. */
  lemma AttestationAdded(ticks: seq<ChrononRecord>, n: u64, a: Attestation)
    ensures var after := WithAttestation(ticks, n, a);
            && |after| == |ticks|
            && forall i :: 0 <= i < |ticks| ==>
                 if ticks[i].chrononNumber == n && forall j :: 0 <= j < i ==> ticks[j].chrononNumber != n then
                   after[i].external == ticks[i].external + [a] && after[i] == ticks[i].(external := after[i].external)
                 else after[i] == ticks[i]
  {
  }

  // ---------------------------------------------------------------- the ticking node's own check

  const CHECKED_RECORDS: nat := 10_000

  /** The node asks the calendar for at most ten thousand records and checks those of them in range. */
  function NodeIntegrityCheck(c: Crypto, tbid: bytes, ticks: seq<ChrononRecord>, start: Option<u64>, end: Option<u64>):
    Option<seq<bool>> {
    var lo := if start.Some? then start.value else 0;
    PairResults(c, tbid, InRange(GetFrom(ticks, lo, CHECKED_RECORDS), lo, if end.Some? then end.value else U64_MAX))
  }

  lemma {:induction false} PairResultsPrefix(c: Crypto, tbid: bytes, ticks: seq<ChrononRecord>, n: nat)
    requires PairResults(c, tbid, ticks).Some? && 0 < n <= |ticks|
    ensures |PairResults(c, tbid, ticks).value| == |ticks| - 1
    ensures PairResults(c, tbid, ticks[..n]) == Some(PairResults(c, tbid, ticks).value[..n - 1])
    decreases |ticks|
  {
    hide VerifyPair;
    PairResultsExactly(c, tbid, ticks);
    if n < |ticks| {
      var init := ticks[..|ticks| - 1];
      PairResultsPrefix(c, tbid, init, n);
      assert init[..n] == ticks[..n];
      var r, s := PairResults(c, tbid, ticks).value, PairResults(c, tbid, init).value;
      assert r[..n - 1] == s[..n - 1];
    } else {
      assert ticks[..n] == ticks;
      assert PairResults(c, tbid, ticks).value[..n - 1] == PairResults(c, tbid, ticks).value;
    }
  }

  /** Some pair check of the list cannot be carried out. */
  ghost predicate FailsToRun(c: Crypto, tbid: bytes, ticks: seq<ChrononRecord>) {
    exists i :: 0 < i < |ticks| && VerifyPair(c, tbid, ticks[i - 1], ticks[i]) == Error
  }

  lemma {:induction false} NoResultsExactly(c: Crypto, tbid: bytes, ticks: seq<ChrononRecord>)
    ensures PairResults(c, tbid, ticks).None? <==> FailsToRun(c, tbid, ticks)
  {
    hide VerifyPair;
    if |ticks| >= 2 {
      var n := |ticks|;
      var init := ticks[..n - 1];
      NoResultsExactly(c, tbid, init);
      if FailsToRun(c, tbid, init) {
        var i :| 0 < i < |init| && VerifyPair(c, tbid, init[i - 1], init[i]) == Error;
        assert VerifyPair(c, tbid, ticks[i - 1], ticks[i]) == Error;
      }
      if FailsToRun(c, tbid, ticks) {
        var i :| 0 < i < n && VerifyPair(c, tbid, ticks[i - 1], ticks[i]) == Error;
        if i < n - 1 {
          assert VerifyPair(c, tbid, init[i - 1], init[i]) == Error;
        }
      }
    }
  }

  lemma FailureSpreads(c: Crypto, tbid: bytes, ticks: seq<ChrononRecord>, count: nat)
    requires FailsToRun(c, tbid, Take(ticks, count))
    ensures FailsToRun(c, tbid, ticks)
  {
    hide VerifyPair;
    var part := Take(ticks, count);
    var i :| 0 < i < |part| && VerifyPair(c, tbid, part[i - 1], part[i]) == Error;
    assert VerifyPair(c, tbid, ticks[i - 1], ticks[i]) == Error;
  }

  /** It returns the results for the first ten thousand records of the range and says nothing of the rest. So it agrees
      with the calendar's check exactly while the range holds no more, or a pair check among those cannot be carried
      out, which makes both fail. */
  lemma NodeCheckExactly(c: Crypto, tbid: bytes, ticks: seq<ChrononRecord>, start: Option<u64>, end: Option<u64>)
    requires Increasing(ticks)
    ensures var all := IntegrityCheck(c, tbid, ticks, start, end);
            var node := NodeIntegrityCheck(c, tbid, ticks, start, end);
            var range := InRange(ticks, if start.Some? then start.value else 0, if end.Some? then end.value else U64_MAX);
            && (all.Some? ==> node == Some(Take(all.value, 9_999)))
            && (node.None? <==> FailsToRun(c, tbid, Take(range, 10_000)))
            && (node == all <==> |range| <= 10_000 || FailsToRun(c, tbid, Take(range, 10_000)))
  {
    hide VerifyPair, PairResults, InRange, GetFrom, FailsToRun;
    var lo: nat := if start.Some? then start.value else 0;
    var hi: nat := if end.Some? then end.value else U64_MAX;
    var range := InRange(ticks, lo, hi);
    NodeRange(ticks, lo, hi);
    NoResultsExactly(c, tbid, range);
    NoResultsExactly(c, tbid, Take(range, CHECKED_RECORDS));
    PairResultsExactly(c, tbid, range);
    PairResultsExactly(c, tbid, Take(range, CHECKED_RECORDS));
    if FailsToRun(c, tbid, Take(range, CHECKED_RECORDS)) {
      FailureSpreads(c, tbid, range, CHECKED_RECORDS);
    } else if |range| == 0 {
      NoPairs(c, tbid, range);
    } else if |range| > CHECKED_RECORDS && PairResults(c, tbid, range).Some? {
      PairResultsPrefix(c, tbid, range, CHECKED_RECORDS);
    }
  }

  /** Calendars on which the two checks differ: a break behind the ten-thousandth record is reported by the one and
      passed over by the other. */
  lemma LaterBreakIsMissed(c: Crypto, tbid: bytes, ticks: seq<ChrononRecord>)
    requires Increasing(ticks) && |ticks| > CHECKED_RECORDS && Linked(c, tbid, ticks[..|ticks| - 1])
    requires VerifyPair(c, tbid, ticks[|ticks| - 2], ticks[|ticks| - 1]) == Invalid
    ensures AllTrue(NodeIntegrityCheck(c, tbid, ticks, None, None))
    ensures IntegrityCheck(c, tbid, ticks, None, None).Some? && !AllTrue(IntegrityCheck(c, tbid, ticks, None, None))
  {
    hide VerifyPair, NodeIntegrityCheck, Increasing, InRange;
    var init := ticks[..|ticks| - 1];
    FullRange(ticks);
    NodeCheckExactly(c, tbid, ticks, None, None);
    PairResultsExactly(c, tbid, init);
    PairResultsExactly(c, tbid, ticks);
    var all, before := PairResults(c, tbid, ticks).value, PairResults(c, tbid, init).value;
    assert all == before + [false];
    assert |before| == |init| - 1;
    assert forall i :: 0 <= i < CHECKED_RECORDS - 1 ==> all[i] == before[i];
  }

  lemma NoPairs(c: Crypto, tbid: bytes, ticks: seq<ChrononRecord>)
    requires ticks == []
    ensures PairResults(c, tbid, ticks) == Some([])
  {
  }

  lemma SliceIncreases(ticks: seq<ChrononRecord>, i: nat, j: nat)
    requires Increasing(ticks) && i <= j <= |ticks|
    ensures Increasing(ticks[i..j])
  {
  }

  lemma {:induction false} BelowIs(ticks: seq<ChrononRecord>, n: nat, k: nat)
    requires Increasing(ticks) && k <= |ticks|
    requires forall j :: 0 <= j < |ticks| ==> (j < k <==> ticks[j].chrononNumber < n)
    ensures Below(ticks, n) == k
  {
    if k < |ticks| {
      BelowExactly(ticks, n, k);
    }
    if k > 0 {
      BelowExactly(ticks, n, k - 1);
    }
  }

  /** The range lo..hi of `len` records starting at the first one from lo on. */
  lemma RangeOfSlice(ticks: seq<ChrononRecord>, lo: nat, hi: nat, i: nat, len: nat)
    requires Increasing(ticks) && lo <= hi && i == Below(ticks, lo) && i + len <= |ticks|
    ensures i <= Below(ticks, hi + 1)
    ensures InRange(ticks[i..i + len], lo, hi) == Take(ticks[i..Below(ticks, hi + 1)], len)
  {
    hide InRange, Below, Increasing, Take;
    RangeIsSlice(ticks, lo, hi);
    var m := Below(ticks, hi + 1) - i;
    var got := ticks[i..i + len];
    SliceIncreases(ticks, i, i + len);
    RangeIsSlice(got, lo, hi);
    var p := if m < len then m else len;
    forall k: nat | k < len ensures !(got[k].chrononNumber < lo) && (k < p <==> got[k].chrononNumber < hi + 1) {
      assert got[k] == ticks[i + k];
      BelowExactly(ticks, lo, i + k);
      BelowExactly(ticks, hi + 1, i + k);
    }
    BelowIs(got, lo, 0);
    BelowIs(got, hi + 1, p);
    TakeOfSlice(ticks, i, m, len);
  }

  lemma TakeOfSlice<T>(s: seq<T>, i: nat, m: nat, len: nat)
    requires i + m <= |s| && i + len <= |s|
    ensures s[i..i + len][0..if m < len then m else len] == Take(s[i..i + m], len)
  {
  }

  lemma NodeRange(ticks: seq<ChrononRecord>, lo: nat, hi: nat)
    requires Increasing(ticks) && hi <= U64_MAX && lo <= U64_MAX
    ensures InRange(GetFrom(ticks, lo, CHECKED_RECORDS), lo, hi) == Take(InRange(ticks, lo, hi), CHECKED_RECORDS)
  {
    hide InRange, Below, Increasing;
    var got := GetFrom(ticks, lo, CHECKED_RECORDS);
    if lo > hi {
      EmptyRange(ticks, lo, hi);
      EmptyRange(got, lo, hi);
    } else {
      FullRange(ticks);
      RangeIsSlice(ticks, lo, U64_MAX);
      RangeIsSlice(ticks, lo, hi);
      var i := Below(ticks, lo);
      assert got == ticks[i..i + |got|];
      RangeOfSlice(ticks, lo, hi, i, |got|);
      assert |got| == CHECKED_RECORDS || i + |got| == |ticks|;
    }
  }
}
