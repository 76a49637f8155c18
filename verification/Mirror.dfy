/** Replicated calendars (p2p/foretias-client/src/calendar/mirror.rs). */
module Mirror {
  import opened Encoding
  import opened Prelude
  import opened Records
  import opened CalendarSpec

  predicate HasNumber(v: seq<ChrononRecord>, n: u64) {
    exists i :: 0 <= i < |v| && v[i].chrononNumber == n
  }

  /** Places a record behind every record that does not come after it. */
  function Place(v: seq<ChrononRecord>, r: ChrononRecord): seq<ChrononRecord> {
    if v == [] || v[|v| - 1].chrononNumber <= r.chrononNumber then v + [r]
    else Place(v[..|v| - 1], r) + [v[|v| - 1]]
  }

  /** The stable sort by tick number. */
  function SortByNumber(v: seq<ChrononRecord>): seq<ChrononRecord> {
    if v == [] then [] else Place(SortByNumber(v[..|v| - 1]), v[|v| - 1])
  }

  function Inserted(v: seq<ChrononRecord>, r: ChrononRecord): seq<ChrononRecord> {
    if HasNumber(v, r.chrononNumber) then v else SortByNumber(v + [r])
  }

  function SkipBelow(v: seq<ChrononRecord>, n: u64): seq<ChrononRecord> {
    if v == [] || v[0].chrononNumber >= n then v else SkipBelow(v[1..], n)
  }

  function Query(v: seq<ChrononRecord>, n: u64, count: nat): seq<ChrononRecord> {
    Take(SkipBelow(v, n), count)
  }

  /** The bytes whose hash a peer compares: the tick numbers, eight bytes each. */
  function SanityInput(v: seq<ChrononRecord>): bytes {
    if v == [] then [] else U64(v[0].chrononNumber) + SanityInput(v[1..])
  }

  datatype Info = Info(count: nat, latest: u64, sanity: Hash)

  class MirrorStore {
    const sha256: bytes -> Hash
    var mirrors: map<string, seq<ChrononRecord>>

    constructor (sha256: bytes -> Hash)
      ensures mirrors == map[] && this.sha256 == sha256
    {
      this.sha256, mirrors := sha256, map[];
    }

    method InsertMirrored(tbid: string, record: ChrononRecord)
      modifies this
      ensures mirrors == old(mirrors)[tbid := Inserted(if tbid in old(mirrors) then old(mirrors)[tbid] else [], record)]
    {
      var entry := if tbid in mirrors then mirrors[tbid] else [];
      for i := 0 to |entry|
        invariant forall j :: 0 <= j < i ==> entry[j].chrononNumber != record.chrononNumber
      {
        if entry[i].chrononNumber == record.chrononNumber {
          mirrors := mirrors[tbid := entry];
          return;
        }
      }
      entry := entry + [record];
      entry := SortByNumber(entry);
      mirrors := mirrors[tbid := entry];
    }

    method GetMirrored(tbid: string, n: u64, count: nat) returns (r: Option<seq<ChrononRecord>>)
      ensures r == if tbid in mirrors then Some(Query(mirrors[tbid], n, count)) else None
    {
      if tbid !in mirrors {
        return None;
      }
      return Some(Take(SkipBelow(mirrors[tbid], n), count));
    }

    method LatestRecord(tbid: string) returns (r: Option<ChrononRecord>)
      ensures r.None? <==> tbid !in mirrors || mirrors[tbid] == []
      ensures r.Some? ==> r.value in mirrors[tbid] && r.value == mirrors[tbid][|mirrors[tbid]| - 1]
      ensures r.Some? && Increasing(mirrors[tbid]) ==> forall x :: x in mirrors[tbid] ==> x.chrononNumber <= r.value.chrononNumber
    {
      if tbid !in mirrors || mirrors[tbid] == [] {
        return None;
      }
      return Some(mirrors[tbid][|mirrors[tbid]| - 1]);
    }

    method HashSanity(records: seq<ChrononRecord>) returns (h: Hash)
      ensures h == sha256(SanityInput(records))
    {
      hide U64;
      var data: bytes := [];
      for i := 0 to |records|
        invariant SanityInput(records) == data + SanityInput(records[i..])
      {
        assert records[i..][1..] == records[i + 1..];
        assert SanityInput(records[i..]) == U64(records[i].chrononNumber) + SanityInput(records[i + 1..]);
        data := data + U64(records[i].chrononNumber);
      }
      assert data + SanityInput(records[|records|..]) == data;
      return sha256(data);
    }

    method MirrorInfo(tbid: string) returns (r: Option<Info>)
      ensures r == if tbid in mirrors && mirrors[tbid] != [] then
                     var v := mirrors[tbid];
                     Some(Info(|v|, v[|v| - 1].chrononNumber, sha256(SanityInput(v))))
                   else None
    {
      if tbid !in mirrors || mirrors[tbid] == [] {
        return None;
      }
      var v := mirrors[tbid];
      var sanity := HashSanity(v);
      return Some(Info(|v|, v[|v| - 1].chrononNumber, sanity));
    }
  }

  // ---------------------------------------------------------------- feeding records in any order

  /** The mirror after a sequence of insertions, the earliest first. */
  function Fed(feed: seq<ChrononRecord>): seq<ChrononRecord> {
    if feed == [] then [] else Inserted(Fed(feed[..|feed| - 1]), feed[|feed| - 1])
  }

  lemma {:induction false} PlaceIncreasing(v: seq<ChrononRecord>, r: ChrononRecord)
    requires Increasing(v) && !HasNumber(v, r.chrononNumber)
    ensures Increasing(Place(v, r))
    ensures forall x :: x in Place(v, r) <==> x in v || x == r
    ensures forall x :: x in Place(v, r) && v != [] && v[|v| - 1].chrononNumber > r.chrononNumber ==>
                          x.chrononNumber <= v[|v| - 1].chrononNumber
  {
    if v != [] && v[|v| - 1].chrononNumber > r.chrononNumber {
      var init, last := v[..|v| - 1], v[|v| - 1];
      assert forall i :: 0 <= i < |init| ==> init[i] == v[i];
      PlaceIncreasing(init, r);
      var p := Place(init, r);
      forall i | 0 <= i < |p| ensures p[i].chrononNumber < last.chrononNumber {
        assert p[i] in p;
      }
      assert v == init + [last];
    }
  }

  lemma {:induction false} SortOfSorted(v: seq<ChrononRecord>)
    requires Increasing(v)
    ensures SortByNumber(v) == v
  {
    if v != [] {
      var init := v[..|v| - 1];
      SortOfSorted(init);
      assert init + [v[|v| - 1]] == v;
    }
  }

  ghost predicate Ascending(v: seq<ChrononRecord>) {
    forall i, j :: 0 <= i < j < |v| ==> v[i].chrononNumber <= v[j].chrononNumber
  }

  lemma {:induction false} PlaceKeeps(v: seq<ChrononRecord>, r: ChrononRecord)
    ensures multiset(Place(v, r)) == multiset(v) + multiset{r}
  {
    if v != [] && v[|v| - 1].chrononNumber > r.chrononNumber {
      PlaceKeeps(v[..|v| - 1], r);
      assert v == v[..|v| - 1] + [v[|v| - 1]];
    }
  }

  lemma {:induction false} PlaceSorted(v: seq<ChrononRecord>, r: ChrononRecord)
    requires Ascending(v)
    ensures Ascending(Place(v, r))
    ensures forall i :: 0 <= i < |Place(v, r)| ==> Place(v, r)[i] in v || Place(v, r)[i] == r
  {
    if v != [] && v[|v| - 1].chrononNumber > r.chrononNumber {
      var init, last := v[..|v| - 1], v[|v| - 1];
      PlaceSorted(init, r);
      var p := Place(init, r);
      forall i | 0 <= i < |p| ensures p[i].chrononNumber <= last.chrononNumber && (p[i] in v || p[i] == r) {
        assert p[i] in init || p[i] == r;
      }
      LastIsLargest(p, last);
    }
  }

  lemma LastIsLargest(p: seq<ChrononRecord>, last: ChrononRecord)
    requires Ascending(p) && forall i :: 0 <= i < |p| ==> p[i].chrononNumber <= last.chrononNumber
    ensures Ascending(p + [last])
  {
  }

  /** Sorting orders any list of records, and loses and invents none. */
  lemma {:induction false} SortKeepsRecords(v: seq<ChrononRecord>)
    ensures multiset(SortByNumber(v)) == multiset(v)
    ensures Ascending(SortByNumber(v))
  {
    hide Ascending, Place;
    if v == [] {
      assert Ascending(SortByNumber(v)) by {
        EmptyAscends();
      }
    } else {
      var init, last := v[..|v| - 1], v[|v| - 1];
      SortKeepsRecords(init);
      PlaceSorted(SortByNumber(init), last);
      PlaceKeeps(SortByNumber(init), last);
      assert v == init + [last];
    }
  }

  lemma EmptyAscends()
    ensures Ascending([])
  {
  }

  lemma InsertedMember(v: seq<ChrononRecord>, r: ChrononRecord)
    requires Increasing(v)
    ensures Increasing(Inserted(v, r))
    ensures forall x :: x in Inserted(v, r) <==> x in v || (x == r && !HasNumber(v, r.chrononNumber))
  {
    if !HasNumber(v, r.chrononNumber) {
      assert (v + [r])[..|v|] == v;
      SortOfSorted(v);
      PlaceIncreasing(v, r);
    }
  }

  /** x is the first record of its tick number in the feed. */
  ghost predicate FirstOfItsNumber(feed: seq<ChrononRecord>, x: ChrononRecord) {
    exists i :: 0 <= i < |feed| && feed[i] == x && !HasNumber(feed[..i], x.chrononNumber)
  }

  lemma {:induction false} FedNumbers(feed: seq<ChrononRecord>, n: u64)
    ensures Increasing(Fed(feed))
    ensures HasNumber(Fed(feed), n) <==> HasNumber(feed, n)
  {
    if feed != [] {
      var init, last := feed[..|feed| - 1], feed[|feed| - 1];
      FedNumbers(init, n);
      FedNumbers(init, last.chrononNumber);
      var before, v := Fed(init), Fed(feed);
      InsertedMember(before, last);
      assert feed == init + [last];
      if HasNumber(v, n) {
        var i :| 0 <= i < |v| && v[i].chrononNumber == n;
        assert v[i] in v;
        if v[i] in before {
          var k :| 0 <= k < |before| && before[k] == v[i];
          assert HasNumber(init, n);
          var m :| 0 <= m < |init| && init[m].chrononNumber == n;
          assert feed[m] == init[m];
        } else {
          assert feed[|feed| - 1].chrononNumber == n;
        }
      }
      if HasNumber(feed, n) {
        var i :| 0 <= i < |feed| && feed[i].chrononNumber == n;
        if i < |init| {
          assert init[i] == feed[i];
          var k :| 0 <= k < |before| && before[k].chrononNumber == n;
          assert before[k] in v;
        } else if HasNumber(before, n) {
          var k :| 0 <= k < |before| && before[k].chrononNumber == n;
          assert before[k] in v;
        } else {
          assert last in v;
        }
      }
    }
  }

  /** Whatever is fed in whatever order, the mirror is strictly sorted and holds, for each tick number fed, exactly the
      record that came first. */
  lemma {:induction false} FirstWins(feed: seq<ChrononRecord>)
    ensures Increasing(Fed(feed))
    ensures forall x :: x in Fed(feed) <==> FirstOfItsNumber(feed, x)
  {
    if feed != [] {
      var init, last := feed[..|feed| - 1], feed[|feed| - 1];
      FirstWins(init);
      FedNumbers(init, last.chrononNumber);
      InsertedMember(Fed(init), last);
      forall x ensures FirstOfItsNumber(feed, x)
                       <==> FirstOfItsNumber(init, x) || (x == last && !HasNumber(init, last.chrononNumber))
      {
        FirstOfLonger(feed, x);
      }
    }
  }

  lemma FirstOfLonger(feed: seq<ChrononRecord>, x: ChrononRecord)
    requires feed != []
    ensures var init, last := feed[..|feed| - 1], feed[|feed| - 1];
            FirstOfItsNumber(feed, x)
            <==> FirstOfItsNumber(init, x) || (x == last && !HasNumber(init, last.chrononNumber))
  {
    var init, last := feed[..|feed| - 1], feed[|feed| - 1];
    assert forall i :: 0 <= i < |init| ==> init[i] == feed[i] && init[..i] == feed[..i];
    if FirstOfItsNumber(feed, x) {
      var i :| 0 <= i < |feed| && feed[i] == x && !HasNumber(feed[..i], x.chrononNumber);
      if i < |init| {
        assert init[i] == x && !HasNumber(init[..i], x.chrononNumber);
      }
    }
    if FirstOfItsNumber(init, x) {
      var i :| 0 <= i < |init| && init[i] == x && !HasNumber(init[..i], x.chrononNumber);
      assert feed[i] == x && !HasNumber(feed[..i], x.chrononNumber);
    } else if x == last && !HasNumber(init, last.chrononNumber) {
      assert feed[|init|] == x && feed[..|init|] == init;
    }
  }

  lemma NonEmptyToo(a: seq<ChrononRecord>, b: seq<ChrononRecord>)
    requires a != [] && forall x :: x in a ==> x in b
    ensures b != []
  {
    assert a[0] in b;
  }

  lemma LastIsSame(a: seq<ChrononRecord>, b: seq<ChrononRecord>)
    requires Increasing(a) && Increasing(b) && a != [] && b != []
    requires a[|a| - 1] in b && b[|b| - 1] in a
    ensures a[|a| - 1] == b[|b| - 1]
  {
  }

  lemma InitMembers(a: seq<ChrononRecord>)
    requires Increasing(a) && a != []
    ensures Increasing(a[..|a| - 1])
    ensures forall x :: x in a[..|a| - 1] <==> x in a && x != a[|a| - 1]
  {
    assert a == a[..|a| - 1] + [a[|a| - 1]];
  }

  /** Strictly sorted vectors with the same records are the same vector. */
  lemma {:induction false} SameRecordsSameVector(a: seq<ChrononRecord>, b: seq<ChrononRecord>)
    requires Increasing(a) && Increasing(b) && forall x :: x in a <==> x in b
    ensures a == b
  {
    if a != [] {
      NonEmptyToo(a, b);
    }
    if b != [] {
      NonEmptyToo(b, a);
    }
    if a != [] {
      LastIsSame(a, b);
      InitMembers(a);
      InitMembers(b);
      var a', b' := a[..|a| - 1], b[..|b| - 1];
      assert a == a' + [a[|a| - 1]] && b == b' + [b[|b| - 1]];
      forall x ensures x in a' <==> x in b' {
        assert x in a' <==> x in a && x != a[|a| - 1];
        assert x in b' <==> x in b && x != b[|b| - 1];
      }
      SameRecordsSameVector(a', b');
    }
  }

  /** Feeding a calendar's records, in any order and with any duplicates, rebuilds the calendar. */
  lemma MirrorRebuildsCalendar(ticks: seq<ChrononRecord>, feed: seq<ChrononRecord>)
    requires Increasing(ticks) && forall x :: x in feed <==> x in ticks
    ensures Fed(feed) == ticks
  {
    FirstWins(feed);
    forall x ensures FirstOfItsNumber(feed, x) <==> x in ticks {
      if x in ticks {
        FirstExists(feed, x.chrononNumber);
        var i :| 0 <= i < |feed| && feed[i].chrononNumber == x.chrononNumber && !HasNumber(feed[..i], x.chrononNumber);
        assert feed[i] in ticks;
      }
    }
    SameRecordsSameVector(Fed(feed), ticks);
  }

  lemma {:induction false} FirstExists(feed: seq<ChrononRecord>, n: u64)
    requires HasNumber(feed, n)
    ensures exists i :: 0 <= i < |feed| && feed[i].chrononNumber == n && !HasNumber(feed[..i], n)
  {
    var i :| 0 <= i < |feed| && feed[i].chrononNumber == n;
    if HasNumber(feed[..i], n) {
      FirstExists(feed[..i], n);
      var j :| 0 <= j < i && feed[..i][j].chrononNumber == n && !HasNumber(feed[..i][..j], n);
      assert feed[..i][..j] == feed[..j];
      assert feed[j].chrononNumber == n && !HasNumber(feed[..j], n);
    }
  }

  /** On a sorted mirror every query gets the answer the calendar would give. */
  lemma QueriesAgree(ticks: seq<ChrononRecord>, n: u64, count: nat)
    requires Increasing(ticks)
    ensures Query(ticks, n, count) == GetFrom(ticks, n, count)
  {
    FullRange(ticks);
    RangeIsSlice(ticks, n, U64_MAX);
    SkipIsDrop(ticks, n);
  }

  lemma {:induction false} SkipIsDrop(v: seq<ChrononRecord>, n: u64)
    ensures SkipBelow(v, n) == v[Below(v, n)..]
  {
    if v != [] && v[0].chrononNumber < n {
      SkipIsDrop(v[1..], n);
    }
  }

  function Numbers(v: seq<ChrononRecord>): seq<u64> {
    seq(|v|, i requires 0 <= i < |v| => v[i].chrononNumber)
  }

  /** The compared bytes fix the tick numbers and nothing else of the records. */
  lemma {:induction false} SanityExactly(a: seq<ChrononRecord>, b: seq<ChrononRecord>)
    ensures SanityInput(a) == SanityInput(b) <==> Numbers(a) == Numbers(b)
  {
    if a == [] || b == [] {
      assert a != [] ==> |SanityInput(a)| >= 8;
      assert b != [] ==> |SanityInput(b)| >= 8;
    } else {
      hide U64;
      var x, y := a[0].chrononNumber, b[0].chrononNumber;
      SanityExactly(a[1..], b[1..]);
      assert Numbers(a) == [x] + Numbers(a[1..]) && Numbers(b) == [y] + Numbers(b[1..]);
      if SanityInput(a) == SanityInput(b) {
        SplitEqual(U64(x), SanityInput(a[1..]), U64(y), SanityInput(b[1..]));
        U64Injective(x, y);
      }
      if Numbers(a) == Numbers(b) {
        SplitEqual([x], Numbers(a[1..]), [y], Numbers(b[1..]));
      }
    }
  }

  /** What peers compare is equal exactly when the tick numbers are, unless the two inputs collide under the hash. */
  lemma SanityHashExactly(sha256: bytes -> Hash, a: seq<ChrononRecord>, b: seq<ChrononRecord>)
    requires sha256(SanityInput(a)) == sha256(SanityInput(b)) ==> SanityInput(a) == SanityInput(b)
    ensures sha256(SanityInput(a)) == sha256(SanityInput(b)) <==> Numbers(a) == Numbers(b)
  {
    SanityExactly(a, b);
  }
}
