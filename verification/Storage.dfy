/** Saving and loading a calendar with crashes anywhere (p2p/core-engine/src/foretias/calendar.rs). */
module Storage {
  import opened Encoding
  import opened Prelude
  import opened Records
  import opened CalendarSpec

  type Ticks = seq<ChrononRecord>

  /** What a path holds. A torn write leaves something that does not parse. */
  datatype File = Absent | Corrupt | Holds(ticks: Ticks)

  /** Where a save comes to a stop: in the middle of writing, before the rename, or not at all. */
  datatype Stop = InWrite | BeforeRename | Never

  function LoadResult(main: File, tmp: File): Option<Ticks> {
    match (main, tmp)
    case (Holds(m), Holds(t)) => Some(if |t| >= |m| then t else m)
    case (Holds(m), _) => Some(m)
    case (_, Holds(t)) => Some(t)
    case _ => None
  }

  // ---------------------------------------------------------------- runs with crashes

  /** The process, if one is up, with its calendar in memory; the two files; and, as history, the calendar of the last
      rename that went through. */
  datatype World = World(process: Option<Ticks>, main: File, tmp: File, renamed: Option<Ticks>)

  const NOTHING := World(None, Absent, Absent, None)

  datatype Event =
    | Append(record: ChrononRecord)
    | Attest(tick: u64, attestation: Attestation)
    | Save(stop: Stop)
    | Crash
    | Start(removable: bool)

  /** A start loads what there is, or begins an empty calendar when there is nothing. */
  function Step(w: World, e: Event): World {
    match e
    case Append(r) =>
      if w.process.Some? && Appendable(w.process.value, r) then w.(process := Some(w.process.value + [r])) else w
    case Attest(n, a) =>
      if w.process.Some? then w.(process := Some(WithAttestation(w.process.value, n, a))) else w
    case Save(stop) =>
      if w.process.None? then w
      else
        (match stop
         case InWrite => w.(tmp := Corrupt)
         case BeforeRename => w.(tmp := Holds(w.process.value))
         case Never => w.(main := Holds(w.process.value), tmp := Absent, renamed := w.process))
    case Crash => w.(process := None)
    case Start(removable) =>
      if w.process.Some? then w
      else
        var r := LoadResult(w.main, w.tmp);
        w.(process := Some(if r.Some? then r.value else []), tmp := if removable then Absent else w.tmp)
  }

  // ---------------------------------------------------------------- the files

  class FileStore {
    var main: File
    var tmp: File
    ghost var renamed: Option<Ticks>

    /** The world around these files while `process` is what is in memory. */
    ghost function View(process: Option<Ticks>): World
      reads this
    {
      World(process, main, tmp, renamed)
    }

    constructor ()
      ensures View(None) == NOTHING
    {
      main, tmp, renamed := Absent, Absent, None;
    }

    /** Write beside the target, then rename over it. */
    method Save(ticks: Ticks, stop: Stop) returns (ok: bool)
      modifies this
      ensures ok <==> stop == Never
      ensures main == if ok then Holds(ticks) else old(main)
      ensures tmp == if ok then Absent else if stop == InWrite then Corrupt else Holds(ticks)
      ensures View(Some(ticks)) == Step(old(View(Some(ticks))), Event.Save(stop))
    {
      if stop == InWrite {
        tmp := Corrupt;
        return false;
      }
      tmp := Holds(ticks);
      if stop == BeforeRename {
        return false;
      }
      main, renamed := tmp, Some(ticks);
      tmp := Absent;
      return true;
    }

    /** Reads both files, removes the temporary one if the system lets it, and returns the longer calendar. */
    method Load(removable: bool) returns (r: Option<Ticks>)
      modifies this`tmp
      ensures r == LoadResult(old(main), old(tmp))
      ensures tmp == if removable then Absent else old(tmp)
      ensures View(Some(if r.Some? then r.value else [])) == Step(old(View(None)), Start(removable))
    {
      var mainCal := if main.Holds? then Some(main.ticks) else None;
      var tmpCal := None;
      if tmp != Absent {
        if tmp.Holds? {
          tmpCal := Some(tmp.ticks);
        } else if removable {
          tmp := Absent;
        }
      }
      match (mainCal, tmpCal)
      case (Some(m), None) =>
        return Some(m);
      case (Some(m), Some(t)) =>
        if |t| >= |m| {
          RemoveTmp(removable);
          return Some(t);
        } else {
          RemoveTmp(removable);
          return Some(m);
        }
      case (None, Some(t)) =>
        RemoveTmp(removable);
        return Some(t);
      case (None, None) =>
        return None;
    }

    method RemoveTmp(removable: bool)
      modifies this`tmp
      ensures tmp == if removable then Absent else old(tmp)
    {
      if removable {
        tmp := Absent;
      }
    }
  }

  ghost predicate Run(worlds: seq<World>, events: seq<Event>) {
    && |worlds| == |events| + 1 && worlds[0] == NOTHING
    && forall k: nat | k < |events| :: worlds[k + 1] == Step(worlds[k], events[k])
  }

  /** The record, possibly with more attestations by others. */
  ghost predicate SameTick(r: ChrononRecord, r': ChrononRecord) {
    r' == r.(external := r'.external) && r.external <= r'.external
  }

  /** Every record of m is still there, in place. */
  ghost predicate Extends(t: Ticks, m: Ticks) {
    |m| <= |t| && forall i :: 0 <= i < |m| ==> SameTick(m[i], t[i])
  }

  lemma ExtendsTransitive(a: Ticks, b: Ticks, c: Ticks)
    requires Extends(b, a) && Extends(c, b)
    ensures Extends(c, a)
  {
    forall i | 0 <= i < |a| ensures SameTick(a[i], c[i]) {
      assert SameTick(a[i], b[i]) && SameTick(b[i], c[i]);
    }
  }

  lemma AttestExtends(t: Ticks, n: u64, a: Attestation)
    ensures Extends(WithAttestation(t, n, a), t)
  {
  }

  /** Whatever is in memory or readable on disk extends the last renamed calendar, which is what the main file holds. */
  ghost predicate Durable(w: World) {
    && w.main == (if w.renamed.Some? then Holds(w.renamed.value) else Absent)
    && (w.renamed.Some? && w.process.Some? ==> Extends(w.process.value, w.renamed.value))
    && (w.renamed.Some? && w.tmp.Holds? ==> Extends(w.tmp.ticks, w.renamed.value))
  }

  lemma StepDurable(w: World, e: Event)
    requires Durable(w)
    ensures Durable(Step(w, e))
    ensures w.renamed.Some? ==> Step(w, e).renamed.Some? && Extends(Step(w, e).renamed.value, w.renamed.value)
  {
    match e
    case Attest(n, a) =>
      if w.process.Some? && w.renamed.Some? {
        AttestExtends(w.process.value, n, a);
        ExtendsTransitive(w.renamed.value, w.process.value, WithAttestation(w.process.value, n, a));
      }
    case Append(r) =>
    case Save(stop) =>
    case Crash =>
    case Start(removable) =>
  }

  lemma {:induction false} RunDurable(worlds: seq<World>, events: seq<Event>, j: nat, k: nat)
    requires Run(worlds, events) && j <= k <= |events|
    ensures Durable(worlds[j]) && Durable(worlds[k])
    ensures worlds[j].renamed.Some? ==> worlds[k].renamed.Some? && Extends(worlds[k].renamed.value, worlds[j].renamed.value)
    decreases k
  {
    hide Durable, Step, Extends;
    if k == 0 {
      StartsDurable();
    } else if j < k {
      RunDurable(worlds, events, j, k - 1);
      StepDurable(worlds[k - 1], events[k - 1]);
      if worlds[j].renamed.Some? {
        ExtendsTransitive(worlds[j].renamed.value, worlds[k - 1].renamed.value, worlds[k].renamed.value);
      }
    } else {
      RunDurable(worlds, events, k - 1, k - 1);
      StepDurable(worlds[k - 1], events[k - 1]);
      Reflexive(worlds[k]);
    }
  }

  lemma StartsDurable()
    ensures Durable(NOTHING)
  {
  }

  lemma Reflexive(w: World)
    ensures w.renamed.Some? ==> Extends(w.renamed.value, w.renamed.value)
  {
  }

  /** Crash safety: over any run of appends, attestations, saves, crashes between or inside save steps and restarts,
      once a save has completed every later load succeeds and returns an extension of what that save wrote. */
  lemma CrashSafety(worlds: seq<World>, events: seq<Event>, j: nat, k: nat)
    requires Run(worlds, events) && j <= k <= |events| && worlds[j].renamed.Some?
    ensures var r := LoadResult(worlds[k].main, worlds[k].tmp);
            r.Some? && Extends(r.value, worlds[j].renamed.value)
  {
    hide Step, Extends;
    RunDurable(worlds, events, j, k);
    var m := worlds[k].renamed.value;
    Reflexive(worlds[k]);
    ExtendsTransitive(worlds[j].renamed.value, m, LoadResult(worlds[k].main, worlds[k].tmp).value);
  }

  /** What a process that starts now has in memory. */
  function Started(w: World): Ticks {
    Step(w.(process := None), Start(true)).process.value
  }

  function Play(w: World, events: seq<Event>): World {
    if events == [] then w else Step(Play(w, events[..|events| - 1]), events[|events| - 1])
  }

  predicate NoSave(events: seq<Event>) {
    forall i :: 0 <= i < |events| ==> !events[i].Save?
  }

  /** Some start among the events has removed the temporary file. */
  predicate Removed(w: World, events: seq<Event>) {
    events != []
    && (Removed(w, events[..|events| - 1])
        || (events[|events| - 1] == Start(true) && Play(w, events[..|events| - 1]).process.None?))
  }

  lemma {:induction false} FilesWithoutSave(w: World, events: seq<Event>)
    requires NoSave(events)
    ensures var w' := Play(w, events);
            w'.main == w.main && w'.tmp == if Removed(w, events) then Absent else w.tmp
  {
    if events != [] {
      FilesWithoutSave(w, events[..|events| - 1]);
    }
  }

  /** The two files are such that what is recovered from them outlives the removal of the temporary one: that file is
      not the one recovered from, or it holds what the main file holds, or it holds nothing. */
  predicate Survives(main: File, tmp: File) {
    || !tmp.Holds?
    || (main.Holds? && (|tmp.ticks| >= |main.ticks| ==> tmp == main))
    || (!main.Holds? && tmp.ticks == [])
  }

  /** Recovery without a later save. Over any appends, attestations, crashes and starts, a process that starts
      afterwards finds the calendar it would have found at first exactly when no start has removed the temporary file
      or the two files were such that it does not matter. */
  lemma RecoverySurvivesExactly(w: World, events: seq<Event>)
    requires NoSave(events)
    ensures Started(Play(w, events)) == Started(w) <==> !Removed(w, events) || Survives(w.main, w.tmp)
  {
    hide Removed, Play;
    FilesWithoutSave(w, events);
  }

  /** A run of the failing kind: a calendar recovered from the temporary file is in memory after one restart and gone
      after the next. */
  lemma RecoveredRecordsCanBeLost(r1: ChrononRecord, r2: ChrononRecord)
    returns (worlds: seq<World>, events: seq<Event>)
    requires r1.chrononNumber < r2.chrononNumber
    ensures Run(worlds, events) && |events| == 9
    ensures worlds[7].process == Some([r1, r2]) && worlds[9].process == Some([r1])
  {
    events := [Start(true), Append(r1), Save(Never), Append(r2), Save(BeforeRename), Crash, Start(true), Crash, Start(true)];
    var one, two := NOTHING.(process := Some([r1])), World(Some([r1, r2]), Holds([r1]), Absent, Some([r1]));
    var saved := World(Some([r1]), Holds([r1]), Absent, Some([r1]));
    worlds := [NOTHING, NOTHING.(process := Some([])), one, saved, two, two.(tmp := Holds([r1, r2])),
               two.(process := None, tmp := Holds([r1, r2])), two, two.(process := None), saved];
    assert [r1] + [r2] == [r1, r2] && [] + [r1] == [r1];
  }

  // ---------------------------------------------------------------- load and verify

  function LoadAndVerify(c: Crypto, tbid: bytes, main: File, tmp: File, start: Option<u64>, end: Option<u64>): Option<Ticks> {
    var r := LoadResult(main, tmp);
    if r.Some? && AllTrue(IntegrityCheck(c, tbid, r.value, start, end)) then r else None
  }

  /** The gate opens exactly for a calendar whose records in the asked range follow from one another, and then hands out
      what a load gives; otherwise it hands out nothing. */
  lemma GateOpensExactly(c: Crypto, tbid: bytes, main: File, tmp: File, start: Option<u64>, end: Option<u64>, t: Ticks)
    ensures LoadAndVerify(c, tbid, main, tmp, start, end) == Some(t)
            <==> LoadResult(main, tmp) == Some(t)
                 && Linked(c, tbid, InRange(t, if start.Some? then start.value else 0, if end.Some? then end.value else U64_MAX))
  {
    hide PairResults, Linked, InRange;
    PairResultsExactly(c, tbid, InRange(t, if start.Some? then start.value else 0, if end.Some? then end.value else U64_MAX));
  }

  /** The records a process appends follow from its calendar. */
  ghost predicate HonestAppend(c: Crypto, tbid: bytes, w: World, e: Event) {
    e.Append? && w.process.Some? && w.process.value != [] ==>
      VerifyPair(c, tbid, w.process.value[|w.process.value| - 1], e.record) == Valid
  }

  ghost predicate Chain(c: Crypto, tbid: bytes, t: Ticks) {
    Increasing(t) && Linked(c, tbid, t)
  }

  ghost predicate Chained(c: Crypto, tbid: bytes, w: World) {
    && (w.process.Some? ==> Chain(c, tbid, w.process.value))
    && (w.main.Holds? ==> Chain(c, tbid, w.main.ticks))
    && (w.tmp.Holds? ==> Chain(c, tbid, w.tmp.ticks))
  }

  lemma AttestationsUnsigned(c: Crypto, tbid: bytes, prev: ChrononRecord, curr: ChrononRecord,
                             prev': ChrononRecord, curr': ChrononRecord)
    requires SameTick(prev, prev') && SameTick(curr, curr')
    ensures VerifyPair(c, tbid, prev', curr') == VerifyPair(c, tbid, prev, curr)
  {
    hide PairBlob, GenesisPairBlob, GenesisBlob;
  }

  lemma AttestKeepsChain(c: Crypto, tbid: bytes, t: Ticks, n: u64, a: Attestation)
    requires Chain(c, tbid, t)
    ensures Chain(c, tbid, WithAttestation(t, n, a))
  {
    hide VerifyPair;
    var t' := WithAttestation(t, n, a);
    forall i | 0 < i < |t'| ensures VerifyPair(c, tbid, t'[i - 1], t'[i]) == Valid {
      AttestationsUnsigned(c, tbid, t[i - 1], t[i], t'[i - 1], t'[i]);
    }
  }

  lemma AppendKeepsChain(c: Crypto, tbid: bytes, t: Ticks, r: ChrononRecord)
    requires Chain(c, tbid, t) && Appendable(t, r) && (t != [] ==> VerifyPair(c, tbid, t[|t| - 1], r) == Valid)
    ensures Chain(c, tbid, t + [r])
  {
    hide VerifyPair;
    var t' := t + [r];
    forall i | 0 < i < |t'| ensures VerifyPair(c, tbid, t'[i - 1], t'[i]) == Valid {
      if i < |t| {
        assert t'[i - 1] == t[i - 1] && t'[i] == t[i];
      }
    }
  }

  lemma StepChained(c: Crypto, tbid: bytes, w: World, e: Event)
    requires Chained(c, tbid, w) && HonestAppend(c, tbid, w, e)
    ensures Chained(c, tbid, Step(w, e))
  {
    hide VerifyPair;
    match e
    case Append(r) =>
      if w.process.Some? && Appendable(w.process.value, r) {
        AppendKeepsChain(c, tbid, w.process.value, r);
      }
    case Attest(n, a) =>
      if w.process.Some? {
        AttestKeepsChain(c, tbid, w.process.value, n, a);
      }
    case Save(stop) =>
    case Crash =>
    case Start(removable) =>
  }

  lemma {:induction false} RunChained(c: Crypto, tbid: bytes, worlds: seq<World>, events: seq<Event>, k: nat)
    requires Run(worlds, events) && k <= |events|
    requires forall i :: 0 <= i < |events| ==> HonestAppend(c, tbid, worlds[i], events[i])
    ensures Chained(c, tbid, worlds[k])
  {
    hide Step, HonestAppend, Chain;
    if k > 0 {
      RunChained(c, tbid, worlds, events, k - 1);
      StepChained(c, tbid, worlds[k - 1], events[k - 1]);
    }
  }

  /** A process that appends only records that follow from its calendar never fails the verification gate on a later
      load, whatever crashes happen and whatever range is verified, once one save has completed. */
  lemma LoadAndVerifySucceeds(c: Crypto, tbid: bytes, worlds: seq<World>, events: seq<Event>, j: nat, k: nat,
                              start: Option<u64>, end: Option<u64>)
    requires Run(worlds, events) && j <= k <= |events| && worlds[j].renamed.Some?
    requires forall i :: 0 <= i < |events| ==> HonestAppend(c, tbid, worlds[i], events[i])
    ensures var r := LoadAndVerify(c, tbid, worlds[k].main, worlds[k].tmp, start, end);
            r.Some? && Extends(r.value, worlds[j].renamed.value)
  {
    hide Step, HonestAppend, Extends, IntegrityCheck, Linked, Increasing;
    CrashSafety(worlds, events, j, k);
    RunChained(c, tbid, worlds, events, k);
    LinkedPassesEveryRange(c, tbid, LoadResult(worlds[k].main, worlds[k].tmp).value, start, end);
  }
}
