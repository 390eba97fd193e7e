/**
 The hand-off from the filesystem watcher to the scanner (`services/fs_watcher.rs`): the debouncer
 records changed directories in a shared map and then posts a wake-up on a bounded queue, giving
 up when the queue is full; the processor takes a wake-up and then empties the map.
 */
module WatchHandOff {

  const CAPACITY: nat := 256

  type Dir = nat

  /** What the processor is doing: waiting, between a wake-up and the drain, or working on a batch. */
  datatype Consumer = Waiting | Received | Processing

  /**
   `sending` callbacks are between recording their directories and posting the wake-up. The two
   multisets are history: every change recorded and every change drained.
   */
  datatype State = State(
    pending: map<Dir, nat>,
    queued: nat,
    sending: nat,
    consumer: Consumer,
    recorded: multiset<Dir>,
    drained: multiset<Dir>)

  datatype Step = Record(dirs: seq<Dir>) | TrySend | Receive | Drain | Finish

  function CountOf(pending: map<Dir, nat>, d: Dir): nat
  {
    if d in pending then pending[d] else 0
  }

  function AddOne(pending: map<Dir, nat>, d: Dir): map<Dir, nat>
  {
    pending[d := CountOf(pending, d) + 1]
  }

  /** The map after the changes of one callback. */
  function Tally(pending: map<Dir, nat>, dirs: seq<Dir>): map<Dir, nat>
    decreases |dirs|
  {
    if dirs == [] then pending else AddOne(Tally(pending, dirs[..|dirs| - 1]), dirs[|dirs| - 1])
  }

  lemma {:induction false} TallyCounts(pending: map<Dir, nat>, dirs: seq<Dir>, d: Dir)
    ensures CountOf(Tally(pending, dirs), d) == CountOf(pending, d) + multiset(dirs)[d]
    ensures dirs != [] ==> Tally(pending, dirs) != map[]
    decreases |dirs|
  {
    if dirs != [] {
      var last := |dirs| - 1;
      TallyCounts(pending, dirs[..last], d);
      OneMoreListed(dirs, d);
      OneMore(Tally(pending, dirs[..last]), dirs[last], d);
    }
  }

  lemma OneMoreListed(dirs: seq<Dir>, d: Dir)
    requires dirs != []
    ensures multiset(dirs)[d] == multiset(dirs[..|dirs| - 1])[d] + (if dirs[|dirs| - 1] == d then 1 else 0)
  {
    assert dirs == dirs[..|dirs| - 1] + [dirs[|dirs| - 1]];
  }

  lemma OneMore(pending: map<Dir, nat>, x: Dir, d: Dir)
    ensures CountOf(AddOne(pending, x), d) == CountOf(pending, d) + (if x == d then 1 else 0)
    ensures AddOne(pending, x) != map[]
  {
    assert x in AddOne(pending, x);
  }

  /** The callback's loop over the changed directories. */
  method RecordDirs(pending: map<Dir, nat>, dirs: seq<Dir>) returns (after: map<Dir, nat>)
    ensures forall d :: CountOf(after, d) == CountOf(pending, d) + multiset(dirs)[d]
    ensures after == Tally(pending, dirs)
  {
    after := pending;
    var i := 0;
    while i < |dirs|
      invariant i <= |dirs|
      invariant after == Tally(pending, dirs[..i])
    {
      assert dirs[..i + 1][..i] == dirs[..i];
      after := AddOne(after, dirs[i]);
      i := i + 1;
    }
    assert dirs[..i] == dirs;
    forall d ensures CountOf(after, d) == CountOf(pending, d) + multiset(dirs)[d] {
      TallyCounts(pending, dirs, d);
    }
  }

  /** The changes that a map stands for. */
  function Changes(pending: map<Dir, nat>): (r: multiset<Dir>)
    ensures forall d :: r[d] == CountOf(pending, d)
  {
    if pending == map[] then multiset{} else
    var d :| d in pending;
    var others := Changes(pending - {d});
    others[d := pending[d]]
  }

  function Init(): State
  {
    State(map[], 0, 0, Waiting, multiset{}, multiset{})
  }

  predicate Enabled(s: State, step: Step)
  {
    match step
    case Record(dirs) => dirs != []
    case TrySend => s.sending > 0
    case Receive => s.queued > 0 && s.consumer == Waiting
    case Drain => s.consumer == Received
    case Finish => s.consumer == Processing
  }

  ghost function Apply(s: State, step: Step): State
    requires Enabled(s, step)
  {
    match step
    case Record(dirs) =>
      s.(pending := Tally(s.pending, dirs), sending := s.sending + 1, recorded := s.recorded + multiset(dirs))
    case TrySend =>
      s.(queued := if s.queued < CAPACITY then s.queued + 1 else s.queued, sending := s.sending - 1)
    case Receive => s.(queued := s.queued - 1, consumer := Received)
    case Drain =>
      s.(pending := map[], consumer := if s.pending == map[] then Waiting else Processing,
         drained := s.drained + Changes(s.pending))
    case Finish => s.(consumer := Waiting)
  }

  ghost predicate Reaches(s: State, steps: seq<Step>, t: State)
    decreases |steps|
  {
    if steps == [] then s == t else Enabled(s, steps[0]) && Reaches(Apply(s, steps[0]), steps[1..], t)
  }

  ghost predicate Invariant(s: State)
  {
    && s.queued <= CAPACITY
    && (s.pending != map[] ==> s.queued > 0 || s.sending > 0 || s.consumer == Received)
    && (forall d :: s.recorded[d] == s.drained[d] + CountOf(s.pending, d))
  }

  lemma StepKeepsInvariant(s: State, step: Step)
    requires Invariant(s) && Enabled(s, step)
    ensures Invariant(Apply(s, step))
  {
    if step.Record? {
      forall d ensures CountOf(Tally(s.pending, step.dirs), d) == CountOf(s.pending, d) + multiset(step.dirs)[d] {
        TallyCounts(s.pending, step.dirs, d);
      }
    }
  }

  lemma {:induction false} RunKeepsInvariant(s: State, steps: seq<Step>, t: State)
    requires Invariant(s) && Reaches(s, steps, t)
    ensures Invariant(t)
    decreases |steps|
  {
    if steps != [] {
      StepKeepsInvariant(s, steps[0]);
      RunKeepsInvariant(Apply(s, steps[0]), steps[1..], t);
    }
  }

  /**
   No wake-up is lost. In every reachable state, directories are pending only if a wake-up is
   queued, or a callback is about to post one, or the processor is about to drain; this holds
   although a callback drops its wake-up when the queue is full.
   */
  lemma NoLostWakeup(steps: seq<Step>, s: State)
    requires Reaches(Init(), steps, s)
    ensures s.pending != map[] ==> s.queued > 0 || s.sending > 0 || s.consumer == Received
  {
    RunKeepsInvariant(Init(), steps, s);
  }

  /** Every recorded change is either drained once or still pending. */
  lemma ChangesAreConserved(steps: seq<Step>, s: State)
    requires Reaches(Init(), steps, s)
    ensures s.recorded == s.drained + Changes(s.pending)
  {
    RunKeepsInvariant(Init(), steps, s);
  }

  /** How many steps are left in the system when nothing more is recorded. */
  function Work(s: State): nat
  {
    4 * s.sending + 3 * s.queued
    + (match s.consumer case Waiting => 0 case Received => 2 case Processing => 1)
  }

  ghost predicate NoRecords(steps: seq<Step>)
  {
    forall i :: 0 <= i < |steps| ==> !steps[i].Record?
  }

  ghost predicate CanStep(s: State)
  {
    Enabled(s, TrySend) || Enabled(s, Receive) || Enabled(s, Drain) || Enabled(s, Finish)
  }

  lemma {:induction false} WorkRunsOut(s: State, steps: seq<Step>, t: State)
    requires NoRecords(steps) && Reaches(s, steps, t)
    ensures |steps| + Work(t) <= Work(s)
    ensures t.recorded == s.recorded
    decreases |steps|
  {
    if steps != [] {
      assert !steps[0].Record?;
      WorkRunsOut(Apply(s, steps[0]), steps[1..], t);
    }
  }

  /**
   Once nothing more is recorded, any schedule comes to rest within a fixed number of steps, and
   at rest everything ever recorded has been drained.
   */
  lemma EverythingIsDrained(before: seq<Step>, s: State, after: seq<Step>, t: State)
    requires Reaches(Init(), before, s) && Reaches(s, after, t) && NoRecords(after)
    ensures |after| <= Work(s)
    ensures !CanStep(t) ==> t.pending == map[] && t.drained == s.recorded
  {
    RunKeepsInvariant(Init(), before, s);
    RunKeepsInvariant(s, after, t);
    WorkRunsOut(s, after, t);
    assert !CanStep(t) ==> t.sending == 0 && t.consumer == Waiting && t.queued == 0;
    if !CanStep(t) {
      assert forall d :: t.recorded[d] == t.drained[d];
    }
  }

  /** All the changes that the steps record. */
  function RecordedBy(steps: seq<Step>): multiset<Dir>
  {
    if steps == [] then multiset{}
    else (if steps[0].Record? then multiset(steps[0].dirs) else multiset{}) + RecordedBy(steps[1..])
  }

  /** What is drained or pending is exactly what the callbacks recorded. */
  lemma {:induction false} NothingIsForgotten(s: State, steps: seq<Step>, t: State)
    requires Reaches(s, steps, t)
    ensures t.recorded == s.recorded + RecordedBy(steps)
    decreases |steps|
  {
    if steps != [] {
      NothingIsForgotten(Apply(s, steps[0]), steps[1..], t);
    }
  }

  /** Callbacks never wait: they can always record, and post a wake-up that is lost only when 256 are queued. */
  lemma CallbacksNeverWait(s: State, dirs: seq<Dir>)
    ensures dirs != [] ==> Enabled(s, Record(dirs)) && Enabled(Apply(s, Record(dirs)), TrySend)
    ensures Enabled(s, TrySend) && s.queued < 256 ==> Apply(s, TrySend).queued == s.queued + 1
    ensures Enabled(s, TrySend) && s.queued == 256 ==> Apply(s, TrySend).queued == 256
  {
  }
}

/**
 The cooldown in `process_batch`: each drained directory starts a scan of its library, unless one
 was started less than ten seconds ago; ten or more changes ask for a full scan.
 */
module ScanCooldown {
  import opened Options

  const LIBRARY_COOLDOWN: int := 10
  const BULK_IMPORT_THRESHOLD: nat := 10

  type Library = nat

  /** A drained directory: the library it resolved to, and the number of changes. */
  datatype Entry = Entry(library: Option<Library>, count: nat)

  /** The two clock readings around one entry: at the cooldown check, and when the scan is noted. */
  datatype Reading = Reading(check: int, note: int)

  datatype Scan = Scan(library: Library, time: int, full: bool)

  datatype Outcome = Unwatched | Cooling | Started(full: bool)

  /** The readings come from a monotonic clock and none is before `from`. */
  ghost predicate Monotonic(from: int, clock: seq<Reading>)
  {
    && (forall i :: 0 <= i < |clock| ==> from <= clock[i].check <= clock[i].note)
    && (forall i, j :: 0 <= i < j < |clock| ==> clock[i].note <= clock[j].check)
  }

  /** The scans that the outcomes stand for. */
  function ScansOf(batch: seq<Entry>, clock: seq<Reading>, outcomes: seq<Outcome>): seq<Scan>
    requires |batch| == |clock| == |outcomes|
    decreases |batch|
  {
    if batch == [] then [] else
    var last := |batch| - 1;
    ScansOf(batch[..last], clock[..last], outcomes[..last]) + ScanOf(batch[last], clock[last], outcomes[last])
  }

  function ScanOf(entry: Entry, reading: Reading, outcome: Outcome): seq<Scan>
  {
    if outcome.Started? && entry.library.Some? then [Scan(entry.library.value, reading.note, outcome.full)] else []
  }

  /** No scan of the library among these started within the cooldown before `now`. */
  ghost predicate Rested(scans: seq<Scan>, library: Library, now: int)
  {
    forall i :: 0 <= i < |scans| && scans[i].library == library ==> now - scans[i].time >= LIBRARY_COOLDOWN
  }

  ghost predicate Spaced(scans: seq<Scan>)
  {
    forall i, j :: 0 <= i < j < |scans| && scans[i].library == scans[j].library ==>
                     scans[j].time - scans[i].time >= LIBRARY_COOLDOWN
  }

  /** What one entry must come to, given the scans started before it. */
  ghost predicate RightOutcome(scans: seq<Scan>, entry: Entry, check: int, outcome: Outcome)
  {
    match entry.library
    case None => outcome == Unwatched
    case Some(library) =>
      if Rested(scans, library, check) then outcome == Started(entry.count >= BULK_IMPORT_THRESHOLD)
      else outcome == Cooling
  }

  /** Each outcome is right, given the earlier scans and those started for earlier entries. */
  ghost predicate RightOutcomes(scans: seq<Scan>, batch: seq<Entry>, clock: seq<Reading>, outcomes: seq<Outcome>)
    decreases |batch|
  {
    && |batch| == |clock| == |outcomes|
    && (batch != [] ==>
          var last := |batch| - 1;
          && RightOutcomes(scans, batch[..last], clock[..last], outcomes[..last])
          && RightOutcome(scans + ScansOf(batch[..last], clock[..last], outcomes[..last]), batch[last],
                          clock[last].check, outcomes[last]))
  }

  /** The outcomes of the first `n` entries are right and `after` is what they make of `before`. */
  ghost predicate Progress(before: seq<Scan>, after: seq<Scan>, batch: seq<Entry>, clock: seq<Reading>,
                           outcomes: seq<Outcome>, n: nat)
    requires |batch| == |clock| && n <= |batch|
  {
    && RightOutcomes(before, batch[..n], clock[..n], outcomes)
    && after == before + ScansOf(batch[..n], clock[..n], outcomes)
  }

  lemma ProgressStarts(before: seq<Scan>, batch: seq<Entry>, clock: seq<Reading>)
    requires |batch| == |clock|
    ensures Progress(before, before, batch, clock, [], 0)
  {
  }

  lemma ProgressEnds(before: seq<Scan>, after: seq<Scan>, batch: seq<Entry>, clock: seq<Reading>,
                     outcomes: seq<Outcome>)
    requires |batch| == |clock| && Progress(before, after, batch, clock, outcomes, |batch|)
    ensures RightOutcomes(before, batch, clock, outcomes) && after == before + ScansOf(batch, clock, outcomes)
  {
    assert batch[..|batch|] == batch && clock[..|batch|] == clock;
  }

  lemma ProgressExtends(before: seq<Scan>, after: seq<Scan>, batch: seq<Entry>, clock: seq<Reading>,
                        outcomes: seq<Outcome>, n: nat, outcome: Outcome)
    requires |batch| == |clock| && n < |batch|
    requires Progress(before, after, batch, clock, outcomes, n)
    requires RightOutcome(after, batch[n], clock[n].check, outcome)
    ensures Progress(before, after + ScanOf(batch[n], clock[n], outcome), batch, clock, outcomes + [outcome], n + 1)
  {
    assert batch[..n + 1][..n] == batch[..n] && clock[..n + 1][..n] == clock[..n];
    assert (outcomes + [outcome])[..n] == outcomes;
  }

  /** The map holds the latest start for each library scanned. */
  ghost predicate Agree(cooldowns: map<Library, int>, scans: seq<Scan>)
  {
    && (forall scan :: scan in scans ==> scan.library in cooldowns && scan.time <= cooldowns[scan.library])
    && (forall library :: library in cooldowns ==>
          exists scan :: scan in scans && scan.library == library && scan.time == cooldowns[library])
  }

  ghost predicate NoneAfter(scans: seq<Scan>, time: int)
  {
    forall scan :: scan in scans ==> scan.time <= time
  }

  /** When the clock was last read in the first `n` turns. */
  function Latest(start: int, clock: seq<Reading>, n: nat): int
    requires n <= |clock|
  {
    if n == 0 then start else clock[n - 1].note
  }

  lemma LaterToo(scans: seq<Scan>, time: int, later: int)
    requires NoneAfter(scans, time) && time <= later
    ensures NoneAfter(scans, later)
  {
  }

  lemma CheckFindsRest(cooldowns: map<Library, int>, scans: seq<Scan>, library: Library, now: int)
    requires Agree(cooldowns, scans)
    ensures Rested(scans, library, now)
       <==> !(library in cooldowns && now - cooldowns[library] < LIBRARY_COOLDOWN)
  {
    if library in cooldowns {
      var scan :| scan in scans && scan.library == library && scan.time == cooldowns[library];
      var i :| 0 <= i < |scans| && scans[i] == scan;
      assert Rested(scans, library, now) ==> now - scans[i].time >= LIBRARY_COOLDOWN;
    }
  }

  lemma NoteScan(cooldowns: map<Library, int>, scans: seq<Scan>, scan: Scan, check: int)
    requires Agree(cooldowns, scans) && Spaced(scans) && NoneAfter(scans, check)
    requires Rested(scans, scan.library, check) && check <= scan.time
    ensures Agree(cooldowns[scan.library := scan.time], scans + [scan])
    ensures Spaced(scans + [scan]) && NoneAfter(scans + [scan], scan.time)
  {
    NoteAgrees(cooldowns, scans, scan);
    NoteIsSpaced(scans, scan, check);
  }

  lemma NoteAgrees(cooldowns: map<Library, int>, scans: seq<Scan>, scan: Scan)
    requires Agree(cooldowns, scans) && NoneAfter(scans, scan.time)
    ensures Agree(cooldowns[scan.library := scan.time], scans + [scan])
  {
    var after := scans + [scan];
    assert after[|scans|] == scan;
    forall library | library in cooldowns && library != scan.library
      ensures exists was :: was in after && was.library == library && was.time == cooldowns[library]
    {
      var was :| was in scans && was.library == library && was.time == cooldowns[library];
      assert was in after;
    }
  }

  lemma NoteIsSpaced(scans: seq<Scan>, scan: Scan, check: int)
    requires Spaced(scans) && Rested(scans, scan.library, check) && check <= scan.time
    ensures Spaced(scans + [scan])
  {
  }

  class ScanScheduler {
    var cooldowns: map<Library, int>
    /** Every scan started so far. */
    ghost var scans: seq<Scan>

    ghost predicate Valid()
      reads this
    {
      Agree(cooldowns, scans) && Spaced(scans)
    }

    constructor ()
      ensures Valid() && scans == []
    {
      cooldowns, scans := map[], [];
    }

    method Decide(entry: Entry, reading: Reading) returns (outcome: Outcome)
      requires Valid() && NoneAfter(scans, reading.check) && reading.check <= reading.note
      modifies this
      ensures Valid() && NoneAfter(scans, reading.note)
      ensures RightOutcome(old(scans), entry, reading.check, outcome)
      ensures scans == old(scans) + ScanOf(entry, reading, outcome)
    {
      if entry.library == None {
        return Unwatched;
      }
      var library := entry.library.value;
      CheckFindsRest(cooldowns, scans, library, reading.check);
      if library in cooldowns && reading.check - cooldowns[library] < LIBRARY_COOLDOWN {
        return Cooling;
      }
      var full := entry.count >= BULK_IMPORT_THRESHOLD;
      NoteScan(cooldowns, scans, Scan(library, reading.note, full), reading.check);
      cooldowns := cooldowns[library := reading.note];
      scans := scans + [Scan(library, reading.note, full)];
      return Started(full);
    }

    /** One turn of the loop over a batch. */
    method Turn(batch: seq<Entry>, clock: seq<Reading>, outcomes: seq<Outcome>, n: nat, ghost before: seq<Scan>)
      returns (after: seq<Outcome>)
      requires n < |batch| == |clock| && clock[n].check <= clock[n].note
      requires Valid() && NoneAfter(scans, clock[n].check) && Progress(before, scans, batch, clock, outcomes, n)
      modifies this
      ensures Valid() && NoneAfter(scans, clock[n].note) && Progress(before, scans, batch, clock, after, n + 1)
    {
      ghost var was := scans;
      var outcome := Decide(batch[n], clock[n]);
      ProgressExtends(before, was, batch, clock, outcomes, n, outcome);
      after := outcomes + [outcome];
    }

    /**
     Each entry starts a scan exactly when its library is watched and no scan of it started in the
     last ten seconds, counting those started for earlier entries of the same batch. Over all
     batches, two scans of a library are never closer than that.
     */
    method ProcessBatch(batch: seq<Entry>, clock: seq<Reading>, ghost start: int) returns (outcomes: seq<Outcome>)
      requires Valid() && NoneAfter(scans, start) && |clock| == |batch| && Monotonic(start, clock)
      modifies this
      ensures Valid() && NoneAfter(scans, Latest(start, clock, |clock|))
      ensures RightOutcomes(old(scans), batch, clock, outcomes)
      ensures scans == old(scans) + ScansOf(batch, clock, outcomes)
    {
      ghost var before := scans;
      outcomes := Turns(batch, clock, start, before);
      ProgressEnds(before, scans, batch, clock, outcomes);
    }

    /** The loop over a batch. */
    method Turns(batch: seq<Entry>, clock: seq<Reading>, ghost start: int, ghost before: seq<Scan>)
      returns (outcomes: seq<Outcome>)
      requires Valid() && NoneAfter(scans, start) && |clock| == |batch| && Monotonic(start, clock) && before == scans
      modifies this
      ensures Valid() && NoneAfter(scans, Latest(start, clock, |batch|))
      ensures Progress(before, scans, batch, clock, outcomes, |batch|)
    {
      outcomes := [];
      ProgressStarts(before, batch, clock);
      var n := 0;
      while n < |batch|
        invariant n <= |batch|
        invariant Valid() && NoneAfter(scans, Latest(start, clock, n))
        invariant Progress(before, scans, batch, clock, outcomes, n)
      {
        LaterToo(scans, Latest(start, clock, n), clock[n].check);
        outcomes := Turn(batch, clock, outcomes, n, before);
        n := n + 1;
      }
    }
  }

  // --------------------------------------- which directory gets the scan

  /** Every scan that a batch starts belongs to one of its entries, and the other way round. */
  lemma {:induction false} ScansComeFromEntries(batch: seq<Entry>, clock: seq<Reading>, outcomes: seq<Outcome>)
    requires |batch| == |clock| == |outcomes|
    ensures forall scan :: scan in ScansOf(batch, clock, outcomes) ==>
              exists j :: 0 <= j < |batch| && ScanOf(batch[j], clock[j], outcomes[j]) == [scan]
    ensures forall j :: 0 <= j < |batch| && outcomes[j].Started? && batch[j].library.Some? ==>
              Scan(batch[j].library.value, clock[j].note, outcomes[j].full) in ScansOf(batch, clock, outcomes)
    decreases |batch|
  {
    if batch != [] {
      var last := |batch| - 1;
      ScansComeFromEntries(batch[..last], clock[..last], outcomes[..last]);
      var before := ScansOf(batch[..last], clock[..last], outcomes[..last]);
      forall scan | scan in ScansOf(batch, clock, outcomes)
        ensures exists j :: 0 <= j < |batch| && ScanOf(batch[j], clock[j], outcomes[j]) == [scan]
      {
        if scan in before {
          var j :| 0 <= j < last && ScanOf(batch[..last][j], clock[..last][j], outcomes[..last][j]) == [scan];
          assert ScanOf(batch[j], clock[j], outcomes[j]) == [scan];
        } else {
          assert ScanOf(batch[last], clock[last], outcomes[last]) == [scan];
        }
      }
    }
  }

  /** What each single outcome has to be. */
  lemma {:induction false} EachOutcome(scans: seq<Scan>, batch: seq<Entry>, clock: seq<Reading>, outcomes: seq<Outcome>,
                                       k: nat)
    requires RightOutcomes(scans, batch, clock, outcomes) && k < |batch|
    ensures RightOutcome(scans + ScansOf(batch[..k], clock[..k], outcomes[..k]), batch[k], clock[k].check, outcomes[k])
    decreases |batch|
  {
    var last := |batch| - 1;
    if k < last {
      EachOutcome(scans, batch[..last], clock[..last], outcomes[..last], k);
      assert batch[..last][..k] == batch[..k] && clock[..last][..k] == clock[..k];
      assert outcomes[..last][..k] == outcomes[..k];
    }
  }

  /** A run over a batch that takes less time than the cooldown, the library being rested before it. */
  ghost predicate QuietRun(scans: seq<Scan>, batch: seq<Entry>, clock: seq<Reading>, outcomes: seq<Outcome>,
                           start: int, library: Library)
  {
    && RightOutcomes(scans, batch, clock, outcomes)
    && Monotonic(start, clock) && (forall i :: 0 <= i < |clock| ==> clock[i].check < start + LIBRARY_COOLDOWN)
    && Rested(scans, library, start)
  }

  /** Entry `k` is the first of its library. */
  predicate IsFirst(batch: seq<Entry>, k: nat)
    requires k < |batch|
  {
    forall j :: 0 <= j < k ==> batch[j].library != batch[k].library
  }

  /**
   In such a run the first directory of the library gets the scan, a full one from ten changed
   files on, and every later directory of the library is dropped.
   */
  lemma {:induction false} FirstEntryScans(scans: seq<Scan>, batch: seq<Entry>, clock: seq<Reading>,
                                           outcomes: seq<Outcome>, start: int, library: Library, k: nat)
    requires QuietRun(scans, batch, clock, outcomes, start, library)
    requires k < |batch| && batch[k].library == Some(library)
    ensures outcomes[k] == if IsFirst(batch, k) then Started(batch[k].count >= BULK_IMPORT_THRESHOLD) else Cooling
    decreases k
  {
    EachOutcome(scans, batch, clock, outcomes, k);
    ScansComeFromEntries(batch[..k], clock[..k], outcomes[..k]);
    if IsFirst(batch, k) {
      NoneOfLibrary(scans, batch, clock, outcomes, start, library, k);
    } else {
      var j := FirstOf(batch, library, k);
      FirstEntryScans(scans, batch, clock, outcomes, start, library, j);
      var scan := Scan(library, clock[j].note, outcomes[j].full);
      assert batch[..k][j] == batch[j] && clock[..k][j] == clock[j] && outcomes[..k][j] == outcomes[j];
      StillCooling(scans, ScansOf(batch[..k], clock[..k], outcomes[..k]), scan, clock[k].check);
    }
  }

  lemma {:induction false} FirstOf(batch: seq<Entry>, library: Library, k: nat) returns (j: nat)
    requires k < |batch| && batch[k].library == Some(library)
    ensures j <= k && batch[j].library == Some(library) && IsFirst(batch, j)
    decreases k
  {
    if IsFirst(batch, k) {
      j := k;
    } else {
      var i :| 0 <= i < k && batch[i].library == batch[k].library;
      j := FirstOf(batch, library, i);
    }
  }

  lemma StillCooling(scans: seq<Scan>, more: seq<Scan>, scan: Scan, now: int)
    requires scan in more && now - scan.time < LIBRARY_COOLDOWN
    ensures !Rested(scans + more, scan.library, now)
  {
    var i :| 0 <= i < |more| && more[i] == scan;
    assert (scans + more)[|scans| + i] == scan;
  }

  lemma NoneOfLibrary(scans: seq<Scan>, batch: seq<Entry>, clock: seq<Reading>, outcomes: seq<Outcome>,
                      start: int, library: Library, k: nat)
    requires QuietRun(scans, batch, clock, outcomes, start, library)
    requires k < |batch| && batch[k].library == Some(library) && IsFirst(batch, k)
    ensures Rested(scans + ScansOf(batch[..k], clock[..k], outcomes[..k]), library, clock[k].check)
  {
    var more := ScansOf(batch[..k], clock[..k], outcomes[..k]);
    ScansComeFromEntries(batch[..k], clock[..k], outcomes[..k]);
    forall i | 0 <= i < |more| ensures more[i].library != library {
      assert more[i] in more;
      var j :| 0 <= j < k && ScanOf(batch[..k][j], clock[..k][j], outcomes[..k][j]) == [more[i]];
      assert [more[i]][0] == more[i];
    }
    forall i | 0 <= i < |scans + more| && (scans + more)[i].library == library
      ensures clock[k].check - (scans + more)[i].time >= LIBRARY_COOLDOWN
    {
      assert i < |scans| && (scans + more)[i] == scans[i];
    }
  }

  /** The run starts a full scan of the library. */
  ghost predicate FullScan(batch: seq<Entry>, outcomes: seq<Outcome>, library: Library)
  {
    exists k :: 0 <= k < |batch| && k < |outcomes| && batch[k].library == Some(library) && outcomes[k] == Started(true)
  }

  /** All directories of the library are bulk imports, or none is. */
  ghost predicate OneSided(batch: seq<Entry>, library: Library)
  {
    forall x, y :: x in batch && y in batch && x.library == Some(library) && y.library == Some(library) ==>
                     (x.count >= BULK_IMPORT_THRESHOLD <==> y.count >= BULK_IMPORT_THRESHOLD)
  }

  /** Whether the library gets a full scan is the same in every quiet run over the batch in any order. */
  ghost predicate SameInEveryOrder(scans: seq<Scan>, batch: seq<Entry>, start: int, library: Library)
  {
    || (forall order, clock, outcomes | multiset(order) == multiset(batch)
        && QuietRun(scans, order, clock, outcomes, start, library) ::
          FullScan(order, outcomes, library))
    || (forall order, clock, outcomes | multiset(order) == multiset(batch)
        && QuietRun(scans, order, clock, outcomes, start, library) ::
          !FullScan(order, outcomes, library))
  }

  lemma FullScanOfFirst(scans: seq<Scan>, batch: seq<Entry>, clock: seq<Reading>, outcomes: seq<Outcome>,
                        start: int, library: Library, x: Entry)
    requires QuietRun(scans, batch, clock, outcomes, start, library)
    requires x in batch && x.library == Some(library)
    requires OneSided(batch, library) || batch[0] == x
    ensures FullScan(batch, outcomes, library) <==> x.count >= BULK_IMPORT_THRESHOLD
  {
    var i :| 0 <= i < |batch| && batch[i] == x;
    var j := FirstOf(batch, library, i);
    assert batch[0] == x ==> j == 0;
    FirstEntryScans(scans, batch, clock, outcomes, start, library, j);
    assert batch[j] in batch;
    forall k | 0 <= k < |batch| && batch[k].library == Some(library) && outcomes[k] == Started(true) ensures k == j {
      FirstEntryScans(scans, batch, clock, outcomes, start, library, k);
    }
  }

  lemma {:induction false} SomeOutcomes(scans: seq<Scan>, batch: seq<Entry>, clock: seq<Reading>)
    returns (outcomes: seq<Outcome>)
    requires |clock| == |batch|
    ensures RightOutcomes(scans, batch, clock, outcomes)
    decreases |batch|
  {
    outcomes := [];
    if batch != [] {
      var last := |batch| - 1;
      var before := SomeOutcomes(scans, batch[..last], clock[..last]);
      var seen := scans + ScansOf(batch[..last], clock[..last], before);
      var library := batch[last].library;
      var full := batch[last].count >= BULK_IMPORT_THRESHOLD;
      var outcome := if library == None then Unwatched
                     else if Rested(seen, library.value, clock[last].check) then Started(full)
                     else Cooling;
      outcomes := before + [outcome];
      assert outcomes[..last] == before;
    }
  }

  /** A quiet run over the batch, rearranged so that the given entry comes first. */
  lemma RunWithFirst(scans: seq<Scan>, batch: seq<Entry>, start: int, library: Library, x: Entry)
    returns (order: seq<Entry>, clock: seq<Reading>, outcomes: seq<Outcome>)
    requires Rested(scans, library, start) && x in batch
    ensures multiset(order) == multiset(batch) && order != [] && order[0] == x && x in order
    ensures QuietRun(scans, order, clock, outcomes, start, library)
  {
    var i :| 0 <= i < |batch| && batch[i] == x;
    assert batch == batch[..i] + [x] + batch[i + 1..];
    order := [x] + batch[..i] + batch[i + 1..];
    clock := seq(|order|, _ => Reading(start, start));
    outcomes := SomeOutcomes(scans, order, clock);
  }

  /**
   Whether a library gets its full scan is independent of the order of the drain exactly when all
   its directories in the batch are bulk imports or none is. With one of each, both happen.
   */
  lemma BulkScanDependsOnOrder(scans: seq<Scan>, batch: seq<Entry>, start: int, library: Library)
    requires Rested(scans, library, start)
    ensures SameInEveryOrder(scans, batch, start, library) <==> OneSided(batch, library)
  {
    if OneSided(batch, library) {
      OneSidedIsSame(scans, batch, start, library);
    } else {
      var x, y :| x in batch && y in batch && x.library == Some(library) && y.library == Some(library)
                  && x.count >= BULK_IMPORT_THRESHOLD && y.count < BULK_IMPORT_THRESHOLD;
      var order, clock, outcomes := RunWithFirst(scans, batch, start, library, x);
      FullScanOfFirst(scans, order, clock, outcomes, start, library, x);
      var order', clock', outcomes' := RunWithFirst(scans, batch, start, library, y);
      FullScanOfFirst(scans, order', clock', outcomes', start, library, y);
    }
  }

  lemma OneSidedIsSame(scans: seq<Scan>, batch: seq<Entry>, start: int, library: Library)
    requires OneSided(batch, library)
    ensures SameInEveryOrder(scans, batch, start, library)
  {
    forall order: seq<Entry>, clock: seq<Reading>, outcomes: seq<Outcome>
      | multiset(order) == multiset(batch) && QuietRun(scans, order, clock, outcomes, start, library)
      ensures FullScan(order, outcomes, library) <==>
              exists x :: x in batch && x.library == Some(library) && x.count >= BULK_IMPORT_THRESHOLD
    {
      forall x ensures x in order <==> x in batch {
        assert x in multiset(order) <==> x in multiset(batch);
      }
      if x :| x in batch && x.library == Some(library) {
        FullScanOfFirst(scans, order, clock, outcomes, start, library, x);
      } else {
        forall k | 0 <= k < |order| ensures order[k].library != Some(library) {
          assert order[k] in order;
        }
      }
    }
  }

  /** A directory with one changed file and one with twelve: which is drained first decides. */
  lemma SmallBeforeBulk()
    ensures !SameInEveryOrder([], [Entry(Some(0), 1), Entry(Some(0), 12)], 0, 0)
  {
    var batch := [Entry(Some(0), 1), Entry(Some(0), 12)];
    assert batch[0] in batch && batch[1] in batch;
    BulkScanDependsOnOrder([], batch, 0, 0);
  }

  // ------------------------------------------------ which changes are lost

  /** The run starts a scan of the library. */
  ghost predicate StartsScan(batch: seq<Entry>, outcomes: seq<Outcome>, library: Library)
  {
    exists j :: 0 <= j < |batch| && j < |outcomes| && batch[j].library == Some(library) && outcomes[j].Started?
  }

  /** If nothing of the batch has been started for the library, only the earlier scans count. */
  lemma RestedInBatch(scans: seq<Scan>, batch: seq<Entry>, clock: seq<Reading>, outcomes: seq<Outcome>,
                      library: Library, k: nat)
    requires |batch| == |clock| == |outcomes| && k < |batch|
    requires forall j :: 0 <= j < k && batch[j].library == Some(library) ==> !outcomes[j].Started?
    ensures Rested(scans + ScansOf(batch[..k], clock[..k], outcomes[..k]), library, clock[k].check)
       <==> Rested(scans, library, clock[k].check)
  {
    var more := ScansOf(batch[..k], clock[..k], outcomes[..k]);
    ScansComeFromEntries(batch[..k], clock[..k], outcomes[..k]);
    forall i | 0 <= i < |more| ensures more[i].library != library {
      assert more[i] in more;
      var j :| 0 <= j < k && ScanOf(batch[..k][j], clock[..k][j], outcomes[..k][j]) == [more[i]];
      assert [more[i]][0] == more[i];
    }
    AppendOthers(scans, more, library, clock[k].check);
  }

  lemma AppendOthers(scans: seq<Scan>, more: seq<Scan>, library: Library, now: int)
    requires forall i :: 0 <= i < |more| ==> more[i].library != library
    ensures Rested(scans + more, library, now) <==> Rested(scans, library, now)
  {
    var all := scans + more;
    forall i | 0 <= i < |scans| ensures all[i] == scans[i] {}
    forall i | |scans| <= i < |all| ensures all[i].library != library {
      assert all[i] == more[i - |scans|];
    }
  }

  lemma RestedBefore(scans: seq<Scan>, more: seq<Scan>, library: Library, now: int)
    requires Rested(scans + more, library, now)
    ensures Rested(scans, library, now)
  {
    forall i | 0 <= i < |scans| && scans[i].library == library ensures now - scans[i].time >= LIBRARY_COOLDOWN {
      assert (scans + more)[i] == scans[i];
    }
  }

  /**
   A batch starts a scan of a library exactly when the earlier scans of it are past the cooldown by
   the time its last directory is looked at. Otherwise all its changes are drained and dropped.
   */
  lemma BatchScansWhenRested(scans: seq<Scan>, batch: seq<Entry>, clock: seq<Reading>, outcomes: seq<Outcome>,
                             start: int, library: Library, k: nat)
    requires RightOutcomes(scans, batch, clock, outcomes) && Monotonic(start, clock)
    requires k < |batch| && batch[k].library == Some(library)
    requires forall j :: k < j < |batch| ==> batch[j].library != Some(library)
    ensures StartsScan(batch, outcomes, library) <==> Rested(scans, library, clock[k].check)
  {
    if StartsScan(batch, outcomes, library) {
      var j :| 0 <= j < |batch| && batch[j].library == Some(library) && outcomes[j].Started?;
      EachOutcome(scans, batch, clock, outcomes, j);
      RestedBefore(scans, ScansOf(batch[..j], clock[..j], outcomes[..j]), library, clock[j].check);
      assert clock[j].check <= clock[k].check;
    } else {
      EachOutcome(scans, batch, clock, outcomes, k);
      RestedInBatch(scans, batch, clock, outcomes, library, k);
    }
  }

  /** Any number of changes, five seconds after a scan of their library: nothing is started for them. */
  lemma CoolingDropsChanges(count: nat, outcomes: seq<Outcome>)
    requires RightOutcomes([Scan(0, 0, false)], [Entry(Some(0), count)], [Reading(5, 5)], outcomes)
    ensures outcomes == [Cooling] && ScansOf([Entry(Some(0), count)], [Reading(5, 5)], outcomes) == []
  {
    var scans, batch, clock := [Scan(0, 0, false)], [Entry(Some(0), count)], [Reading(5, 5)];
    assert scans[0].library == 0 && !Rested(scans, 0, 5);
    EachOutcome(scans, batch, clock, outcomes, 0);
    RestedInBatch(scans, batch, clock, outcomes, 0, 0);
  }

  /** In seconds and numbers of changes: what one entry comes to. */
  lemma OutcomeMeans(scans: seq<Scan>, entry: Entry, check: int, outcome: Outcome)
    requires RightOutcome(scans, entry, check, outcome)
    ensures entry.library == None <==> outcome == Unwatched
    ensures outcome.Started? <==>
            entry.library.Some? && forall i :: 0 <= i < |scans| && scans[i].library == entry.library.value ==>
                                     check - scans[i].time >= 10
    ensures outcome.Started? ==> (outcome.full <==> entry.count >= 10)
  {
  }
}
