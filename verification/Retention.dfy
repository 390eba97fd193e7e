/**
 Retention of database dumps (`cleanup_pg_dumps` in `services/backup.rs`): every dump inside the
 daily window stays, one dump per month stays inside the monthly window, older dumps go, and files
 whose name carries no timestamp are left alone.

 Instants are seconds. The calendar month is any function of the instant, so it is a parameter.
 */
module Retention {
  import opened Options

  const DAY: int := 86400

  /** A listed file: the instant its name carries, if the name carries one. */
  datatype File = File(name: string, stamp: Option<int>)

  datatype Config = Config(daily: nat, monthly: nat)

  type Calendar = int -> int

  function DailyCutoff(config: Config, now: int): int
  {
    now - config.daily * DAY
  }

  function MonthlyCutoff(config: Config, now: int): int
  {
    now - config.monthly * 31 * DAY
  }

  // ------------------------------------------------------- what is promised

  predicate InDailyWindow(f: File, config: Config, now: int)
  {
    f.stamp.Some? && f.stamp.value >= DailyCutoff(config, now)
  }

  /** Outside the daily window but inside the monthly one. */
  predicate InMonthlyWindow(f: File, config: Config, now: int)
  {
    && f.stamp.Some? && !InDailyWindow(f, config, now)
    && f.stamp.value >= MonthlyCutoff(config, now)
  }

  predicate SameMonth(f: File, g: File, month: Calendar)
  {
    f.stamp.Some? && g.stamp.Some? && month(f.stamp.value) == month(g.stamp.value)
  }

  /** `g` at `j` is kept for its month rather than `f` at `i`: it is newer, or as new and listed first. */
  predicate Beats(files: seq<File>, j: nat, i: nat)
    requires j < |files| && i < |files| && files[i].stamp.Some? && files[j].stamp.Some?
  {
    files[j].stamp.value > files[i].stamp.value || (files[j].stamp.value == files[i].stamp.value && j < i)
  }

  /** Some dump of the same month, also in the monthly window, is kept instead. */
  ghost predicate Superseded(files: seq<File>, i: nat, config: Config, month: Calendar, now: int)
    requires i < |files| && files[i].stamp.Some?
  {
    exists j :: 0 <= j < |files| && InMonthlyWindow(files[j], config, now)
                && SameMonth(files[j], files[i], month) && Beats(files, j, i)
  }

  ghost predicate Survives(files: seq<File>, i: nat, config: Config, month: Calendar, now: int)
    requires i < |files|
  {
    || files[i].stamp == None
    || InDailyWindow(files[i], config, now)
    || (InMonthlyWindow(files[i], config, now) && !Superseded(files, i, config, month, now))
  }

  // ------------------------------------------------------------ the cleanup

  function Count(flags: seq<bool>): nat
  {
    if flags == [] then 0 else Count(flags[..|flags| - 1]) + (if flags[|flags| - 1] then 1 else 0)
  }

  lemma {:induction false} CountSet(flags: seq<bool>, i: nat)
    requires i < |flags| && !flags[i]
    ensures Count(flags[i := true]) == Count(flags) + 1
  {
    var last := |flags| - 1;
    if i < last {
      CountSet(flags[..last], i);
      assert flags[i := true][..last] == flags[..last][i := true];
    } else {
      assert flags[i := true][..last] == flags[..last];
    }
  }

  function MonthOf(f: File, month: Calendar): int
    requires f.stamp.Some?
  {
    month(f.stamp.value)
  }

  /** The dump that its month keeps among the first `n` files. */
  ghost predicate BestOf(files: seq<File>, n: nat, i: nat, config: Config, month: Calendar, now: int)
    requires i < n <= |files|
  {
    && InMonthlyWindow(files[i], config, now)
    && forall j: nat | j < n && j != i && InMonthlyWindow(files[j], config, now) ::
         MonthOf(files[j], month) == MonthOf(files[i], month) ==> Beats(files, i, j)
  }

  /** After the first `n` files, the map holds the best dump of each month met. */
  ghost predicate KeepsBest(files: seq<File>, n: nat, keep: map<int, nat>, config: Config, month: Calendar, now: int)
    requires n <= |files|
  {
    && (forall m :: m in keep ==> keep[m] < n && BestOf(files, n, keep[m], config, month, now)
                                  && MonthOf(files[keep[m]], month) == m)
    && (forall i: nat :: i < n && InMonthlyWindow(files[i], config, now) ==> MonthOf(files[i], month) in keep)
  }

  /** The flag that the pass has given to a file it has seen. */
  ghost predicate FlagRight(files: seq<File>, i: nat, flag: bool, keep: map<int, nat>,
                            config: Config, month: Calendar, now: int)
    requires i < |files|
  {
    if InMonthlyWindow(files[i], config, now) then
      && MonthOf(files[i], month) in keep
      && (flag <==> keep[MonthOf(files[i], month)] != i)
    else
      flag <==> files[i].stamp.Some? && !InDailyWindow(files[i], config, now)
  }

  ghost predicate Decided(files: seq<File>, n: nat, flags: seq<bool>, keep: map<int, nat>,
                          config: Config, month: Calendar, now: int)
    requires n <= |files| == |flags|
  {
    && KeepsBest(files, n, keep, config, month, now)
    && (forall i: nat :: i < n ==> FlagRight(files, i, flags[i], keep, config, month, now))
    && (forall i: nat :: n <= i < |files| ==> !flags[i])
  }

  lemma StepOutside(files: seq<File>, n: nat, flags: seq<bool>, keep: map<int, nat>,
                    config: Config, month: Calendar, now: int)
    requires n < |files| == |flags| && Decided(files, n, flags, keep, config, month, now)
    requires !InMonthlyWindow(files[n], config, now)
    ensures var flag := files[n].stamp.Some? && !InDailyWindow(files[n], config, now);
            Decided(files, n + 1, flags[n := flag], keep, config, month, now)
  {
  }

  lemma StepFirst(files: seq<File>, n: nat, flags: seq<bool>, keep: map<int, nat>,
                  config: Config, month: Calendar, now: int)
    requires n < |files| == |flags| && Decided(files, n, flags, keep, config, month, now)
    requires InMonthlyWindow(files[n], config, now) && MonthOf(files[n], month) !in keep
    ensures Decided(files, n + 1, flags, keep[MonthOf(files[n], month) := n], config, month, now)
  {
  }

  lemma StepOlder(files: seq<File>, n: nat, flags: seq<bool>, keep: map<int, nat>,
                  config: Config, month: Calendar, now: int)
    requires n < |files| == |flags| && Decided(files, n, flags, keep, config, month, now)
    requires InMonthlyWindow(files[n], config, now) && MonthOf(files[n], month) in keep
    requires files[keep[MonthOf(files[n], month)]].stamp.value >= files[n].stamp.value
    ensures Decided(files, n + 1, flags[n := true], keep, config, month, now)
  {
  }

  lemma StepNewer(files: seq<File>, n: nat, flags: seq<bool>, keep: map<int, nat>,
                  config: Config, month: Calendar, now: int)
    requires n < |files| == |flags| && Decided(files, n, flags, keep, config, month, now)
    requires InMonthlyWindow(files[n], config, now) && MonthOf(files[n], month) in keep
    requires files[keep[MonthOf(files[n], month)]].stamp.value < files[n].stamp.value
    ensures var key := MonthOf(files[n], month);
            && !flags[keep[key]]
            && Decided(files, n + 1, flags[keep[key] := true], keep[key := n], config, month, now)
  {
    var key := MonthOf(files[n], month);
    assert FlagRight(files, keep[key], flags[keep[key]], keep, config, month, now);
    var newKeep := keep[key := n];
    assert KeepsBest(files, n + 1, newKeep, config, month, now) by {
      assert BestOf(files, n, keep[key], config, month, now);
      assert BestOf(files, n + 1, n, config, month, now);
    }
  }

  lemma {:induction false} CountNone(flags: seq<bool>)
    requires forall i :: 0 <= i < |flags| ==> !flags[i]
    ensures Count(flags) == 0
  {
    if flags != [] {
      CountNone(flags[..|flags| - 1]);
    }
  }

  lemma DecidedIsSurvival(files: seq<File>, flags: seq<bool>, keep: map<int, nat>,
                          config: Config, month: Calendar, now: int)
    requires |flags| == |files| && Decided(files, |files|, flags, keep, config, month, now)
    ensures forall i :: 0 <= i < |files| ==> (flags[i] <==> !Survives(files, i, config, month, now))
  {
    forall i: nat | i < |files| ensures flags[i] <==> !Survives(files, i, config, month, now) {
      assert FlagRight(files, i, flags[i], keep, config, month, now);
      if InMonthlyWindow(files[i], config, now) {
        var best := keep[MonthOf(files[i], month)];
        assert BestOf(files, |files|, best, config, month, now);
        if best != i {
          assert Beats(files, best, i) && SameMonth(files[best], files[i], month);
        }
      }
    }
  }

  // ----------------------------------------------------- one per month stays

  /** Among the files up to `n` there is a best one of the month of `i`. */
  lemma {:induction false} FindBest(files: seq<File>, n: nat, i: nat, config: Config, month: Calendar, now: int)
    returns (best: nat)
    requires i < n <= |files| && InMonthlyWindow(files[i], config, now)
    ensures best < n && BestOf(files, n, best, config, month, now)
    ensures MonthOf(files[best], month) == MonthOf(files[i], month)
    decreases n, i
  {
    var last := n - 1;
    if i < last {
      best := FindBest(files, last, i, config, month, now);
      if InMonthlyWindow(files[last], config, now) && MonthOf(files[last], month) == MonthOf(files[i], month)
         && files[best].stamp.value < files[last].stamp.value {
        best := last;
      }
    } else if exists j: nat :: j < last && InMonthlyWindow(files[j], config, now)
                               && MonthOf(files[j], month) == MonthOf(files[i], month) {
      var j: nat :| j < last && InMonthlyWindow(files[j], config, now)
                    && MonthOf(files[j], month) == MonthOf(files[i], month);
      best := FindBest(files, n, j, config, month, now);
    } else {
      best := i;
    }
  }

  /** Every month with dumps in the monthly window keeps exactly one of them, and it is a newest one. */
  lemma OneOfEachMonthSurvives(files: seq<File>, i: nat, config: Config, month: Calendar, now: int) returns (best: nat)
    requires i < |files| && InMonthlyWindow(files[i], config, now)
    ensures best < |files| && InMonthlyWindow(files[best], config, now) && SameMonth(files[best], files[i], month)
    ensures Survives(files, best, config, month, now)
    ensures best == i || Beats(files, best, i)
    ensures forall j: nat | j < |files| && InMonthlyWindow(files[j], config, now)
            && SameMonth(files[j], files[i], month) ::
              && files[j].stamp.value <= files[best].stamp.value
              && (j != best ==> !Survives(files, j, config, month, now))
  {
    best := FindBest(files, |files|, i, config, month, now);
    forall j: nat | j < |files| && InMonthlyWindow(files[j], config, now) && SameMonth(files[j], files[i], month)
      ensures j != best ==> Beats(files, best, j) && Superseded(files, j, config, month, now)
    {
      if j != best {
        assert Beats(files, best, j) && SameMonth(files[best], files[j], month);
      }
    }
  }

  /** Which instants survive is said without mentioning positions. */
  ghost predicate StampSurvives(files: seq<File>, stamp: int, config: Config, month: Calendar, now: int)
  {
    exists f :: f in files && f.stamp == Some(stamp)
                && (InDailyWindow(f, config, now)
                    || (InMonthlyWindow(f, config, now)
                        && forall g :: g in files && InMonthlyWindow(g, config, now) && SameMonth(g, f, month)
                                       ==> g.stamp.value <= stamp))
  }

  lemma SurvivingStamps(files: seq<File>, stamp: int, config: Config, month: Calendar, now: int)
    ensures (exists i: nat :: i < |files| && files[i].stamp == Some(stamp) && Survives(files, i, config, month, now))
       <==> StampSurvives(files, stamp, config, month, now)
  {
    forall i: nat | i < |files| && files[i].stamp == Some(stamp) && Survives(files, i, config, month, now)
      ensures StampSurvives(files, stamp, config, month, now)
    {
      if InMonthlyWindow(files[i], config, now) {
        var best := OneOfEachMonthSurvives(files, i, config, month, now);
        assert best == i;
      }
      assert files[i] in files;
    }
    if StampSurvives(files, stamp, config, month, now) {
      var f :| f in files && f.stamp == Some(stamp)
               && (InDailyWindow(f, config, now)
                   || (InMonthlyWindow(f, config, now)
                       && forall g :: g in files && InMonthlyWindow(g, config, now) && SameMonth(g, f, month)
                                      ==> g.stamp.value <= stamp));
      var i: nat :| i < |files| && files[i] == f;
      if InDailyWindow(f, config, now) {
        assert Survives(files, i, config, month, now);
      } else {
        var best := OneOfEachMonthSurvives(files, i, config, month, now);
        assert files[best] in files && files[best].stamp == Some(stamp);
      }
    }
  }

  /** The order of the directory listing does not decide which instants are kept. */
  lemma ListingOrderIrrelevant(files: seq<File>, other: seq<File>, stamp: int, config: Config, month: Calendar,
                               now: int)
    requires multiset(files) == multiset(other)
    ensures (exists i: nat :: i < |files| && files[i].stamp == Some(stamp) && Survives(files, i, config, month, now))
       <==> (exists i: nat :: i < |other| && other[i].stamp == Some(stamp) && Survives(other, i, config, month, now))
  {
    SurvivingStamps(files, stamp, config, month, now);
    SurvivingStamps(other, stamp, config, month, now);
    assert forall f :: f in files <==> f in multiset(files);
    assert forall f :: f in other <==> f in multiset(other);
  }

  // --------------------------------------------- cleanups compose over time

  /** The second cleanup's windows begin no earlier than the first one's. */
  predicate NoEarlier(first: Config, t1: int, second: Config, t2: int)
  {
    DailyCutoff(first, t1) <= DailyCutoff(second, t2) && MonthlyCutoff(first, t1) <= MonthlyCutoff(second, t2)
  }

  /** What the later cleanup leaves, the earlier one leaves as well. */
  lemma SurvivesEarlier(files: seq<File>, i: nat, month: Calendar, first: Config, t1: int, second: Config, t2: int)
    requires i < |files| && NoEarlier(first, t1, second, t2) && Survives(files, i, second, month, t2)
    ensures Survives(files, i, first, month, t1)
  {
  }

  ghost predicate Increasing(s: seq<nat>)
  {
    forall a, b :: 0 <= a < b < |s| ==> s[a] < s[b]
  }

  /** The positions of the surviving files among the first `n`, in order. */
  ghost function Survivors(files: seq<File>, n: nat, config: Config, month: Calendar, now: int): (r: seq<nat>)
    requires n <= |files|
    ensures Increasing(r)
    ensures forall a :: 0 <= a < |r| ==> r[a] < n
    ensures forall i: nat :: i in r <==> i < n && Survives(files, i, config, month, now)
  {
    if n == 0 then [] else
    var before := Survivors(files, n - 1, config, month, now);
    if Survives(files, n - 1, config, month, now) then before + [n - 1] else before
  }

  function Pick<T>(s: seq<T>, positions: seq<nat>): (r: seq<T>)
    requires forall a :: 0 <= a < |positions| ==> positions[a] < |s|
    ensures |r| == |positions| && forall a :: 0 <= a < |r| ==> r[a] == s[positions[a]]
  {
    seq(|positions|, a requires 0 <= a < |positions| => s[positions[a]])
  }

  /** The directory after a cleanup. */
  ghost function AfterCleanup(files: seq<File>, config: Config, month: Calendar, now: int): seq<File>
  {
    Pick(files, Survivors(files, |files|, config, month, now))
  }

  function Unstamped(files: seq<File>): nat
  {
    if files == [] then 0
    else Unstamped(files[..|files| - 1]) + (if files[|files| - 1].stamp == None then 1 else 0)
  }

  /**
   The pass over the listing, then the removals: the files left, and how many were removed, kept
   by date, and left alone for want of a date.
   */
  method CleanupPgDumps(files: seq<File>, config: Config, month: Calendar, now: int)
    returns (rest: seq<File>, deleted: nat, retained: nat, unknown: nat)
    ensures rest == AfterCleanup(files, config, month, now)
    ensures deleted == |files| - |rest|
    ensures unknown == Unstamped(files)
    ensures deleted + retained + unknown == |files|
  {
    var dailyCutoff, monthlyCutoff := DailyCutoff(config, now), MonthlyCutoff(config, now);
    deleted, retained, unknown := 0, 0, 0;
    var keep: map<int, nat> := map[];
    var flags := new bool[|files|](_ => false);
    CountNone(flags[..]);
    var idx := 0;
    while idx < |files|
      invariant idx <= |files|
      invariant Decided(files, idx, flags[..], keep, config, month, now)
      invariant Count(flags[..]) + retained + unknown == idx
      invariant unknown == Unstamped(files[..idx])
    {
      ghost var before := flags[..];
      assert before[idx := false] == before;
      assert files[..idx + 1][..idx] == files[..idx];
      if !InMonthlyWindow(files[idx], config, now) {
        StepOutside(files, idx, before, keep, config, month, now);
      } else if MonthOf(files[idx], month) !in keep {
        StepFirst(files, idx, before, keep, config, month, now);
      } else if files[keep[MonthOf(files[idx], month)]].stamp.value < files[idx].stamp.value {
        StepNewer(files, idx, before, keep, config, month, now);
      } else {
        StepOlder(files, idx, before, keep, config, month, now);
      }
      if files[idx].stamp == None {
        unknown := unknown + 1;
      } else {
        var stamp := files[idx].stamp.value;
        if stamp >= dailyCutoff {
          retained := retained + 1;
        } else if stamp < monthlyCutoff {
          flags[idx] := true;
          CountSet(before, idx);
          assert flags[..] == before[idx := true];
        } else {
          var key := month(stamp);
          if key in keep {
            var existing := keep[key];
            if files[existing].stamp.value < stamp {
              flags[existing] := true;
              CountSet(before, existing);
              assert flags[..] == before[existing := true];
              keep := keep[key := idx];
            } else {
              flags[idx] := true;
              CountSet(before, idx);
              assert flags[..] == before[idx := true];
            }
          } else {
            keep := keep[key := idx];
            retained := retained + 1;
          }
        }
      }
      idx := idx + 1;
    }
    DecidedIsSurvival(files, flags[..], keep, config, month, now);
    assert files[..idx] == files;
    rest, deleted := RemoveFlagged(files, flags[..], config, month, now);
  }

  lemma PickAppend<T>(s: seq<T>, positions: seq<nat>, p: nat)
    requires forall a :: 0 <= a < |positions| ==> positions[a] < |s|
    requires p < |s|
    ensures Pick(s, positions + [p]) == Pick(s, positions) + [s[p]]
  {
  }

  /** The removals. */
  method RemoveFlagged(files: seq<File>, flags: seq<bool>, ghost config: Config, ghost month: Calendar, ghost now: int)
    returns (rest: seq<File>, deleted: nat)
    requires |flags| == |files|
    requires forall i :: 0 <= i < |files| ==> (flags[i] <==> !Survives(files, i, config, month, now))
    ensures rest == AfterCleanup(files, config, month, now)
    ensures deleted == Count(flags) && deleted + |rest| == |files|
  {
    var idx := 0;
    rest, deleted := [], 0;
    while idx < |files|
      invariant idx <= |files|
      invariant deleted == Count(flags[..idx])
      invariant deleted + |rest| == idx
      invariant rest == Pick(files, Survivors(files, idx, config, month, now))
    {
      assert flags[..idx + 1][..idx] == flags[..idx];
      if flags[idx] {
        deleted := deleted + 1;
      } else {
        PickAppend(files, Survivors(files, idx, config, month, now), idx);
        rest := rest + [files[idx]];
      }
      idx := idx + 1;
    }
    assert flags[..idx] == flags;
  }

  /** The positions are those of a listing from which only files were removed that do not survive at `now`. */
  ghost predicate KeepsSurvivors(files: seq<File>, kept: seq<nat>, config: Config, month: Calendar, now: int)
  {
    && Increasing(kept) && (forall a :: 0 <= a < |kept| ==> kept[a] < |files|)
    && (forall i: nat :: i < |files| && Survives(files, i, config, month, now) ==> i in kept)
  }

  /** A file survives among those kept exactly when it survives among all. */
  lemma SurvivesAmongKept(files: seq<File>, kept: seq<nat>, a: nat, config: Config, month: Calendar, now: int)
    requires KeepsSurvivors(files, kept, config, month, now) && a < |kept|
    ensures Survives(Pick(files, kept), a, config, month, now) <==> Survives(files, kept[a], config, month, now)
  {
    var rest := Pick(files, kept);
    var i := kept[a];
    if InMonthlyWindow(files[i], config, now) {
      if Superseded(files, i, config, month, now) {
        var best := OneOfEachMonthSurvives(files, i, config, month, now);
        assert best in kept && best != i;
        var b :| 0 <= b < |kept| && kept[b] == best;
        assert rest[b] == files[best] && Beats(files, best, i);
        assert best < i ==> b < a;
        assert Beats(rest, b, a);
        assert Superseded(rest, a, config, month, now);
      }
      if Superseded(rest, a, config, month, now) {
        FewerRivals(files, kept, a, config, month, now);
      }
    }
  }

  /** Whoever is superseded among some of the files is superseded among all. */
  lemma FewerRivals(files: seq<File>, kept: seq<nat>, a: nat, config: Config, month: Calendar, now: int)
    requires Increasing(kept) && (forall b :: 0 <= b < |kept| ==> kept[b] < |files|) && a < |kept|
    requires files[kept[a]].stamp.Some? && Superseded(Pick(files, kept), a, config, month, now)
    ensures Superseded(files, kept[a], config, month, now)
  {
    var rest := Pick(files, kept);
    var b :| 0 <= b < |rest| && InMonthlyWindow(rest[b], config, now)
             && SameMonth(rest[b], rest[a], month) && Beats(rest, b, a);
    assert Beats(files, kept[b], kept[a]);
  }

  lemma {:induction false} IncreasingDetermined(s: seq<nat>, t: seq<nat>)
    requires Increasing(s) && Increasing(t)
    requires forall i: nat :: i in s <==> i in t
    ensures s == t
  {
    assert s != [] ==> s[0] in s;
    assert t != [] ==> t[0] in t;
    if s != [] && t != [] {
      var m, n := |s| - 1, |t| - 1;
      assert s[m] in t && t[n] in s;
      assert s[m] == t[n];
      forall i: nat ensures i in s[..m] <==> i in t[..n] {
        assert i in s <==> i in s[..m] || i == s[m];
        assert i in t <==> i in t[..n] || i == t[n];
      }
      IncreasingDetermined(s[..m], t[..n]);
      assert s == s[..m] + [s[m]] && t == t[..n] + [t[n]];
    }
  }

  lemma PickIncreasing(s: seq<nat>, positions: seq<nat>)
    requires forall a :: 0 <= a < |positions| ==> positions[a] < |s|
    requires Increasing(s) && Increasing(positions)
    ensures Increasing(Pick(s, positions))
  {
  }

  lemma PickTwice<T>(s: seq<T>, first: seq<nat>, second: seq<nat>)
    requires forall a :: 0 <= a < |first| ==> first[a] < |s|
    requires forall a :: 0 <= a < |second| ==> second[a] < |first|
    ensures Pick(Pick(s, first), second) == Pick(s, Pick(first, second))
  {
  }

  lemma PickHas(s: seq<nat>, positions: seq<nat>, a: nat)
    requires forall b :: 0 <= b < |positions| ==> positions[b] < |s|
    requires a in positions && a < |s|
    ensures s[a] in Pick(s, positions)
  {
    var x :| 0 <= x < |positions| && positions[x] == a;
    assert Pick(s, positions)[x] == s[a];
  }

  lemma SurvivorsAmongKept(files: seq<File>, kept: seq<nat>, config: Config, month: Calendar, now: int)
    requires KeepsSurvivors(files, kept, config, month, now)
    ensures var rest := Pick(files, kept);
            Pick(kept, Survivors(rest, |rest|, config, month, now)) == Survivors(files, |files|, config, month, now)
  {
    var rest := Pick(files, kept);
    var again := Survivors(rest, |rest|, config, month, now);
    var direct := Survivors(files, |files|, config, month, now);
    var both := Pick(kept, again);
    PickIncreasing(kept, again);
    forall i: nat | i in both ensures i in direct {
      var x :| 0 <= x < |both| && both[x] == i;
      assert again[x] in again;
      SurvivesAmongKept(files, kept, again[x], config, month, now);
    }
    forall i: nat | i in direct ensures i in both {
      var a: nat :| a < |kept| && kept[a] == i;
      SurvivesAmongKept(files, kept, a, config, month, now);
      PickHas(kept, again, a);
    }
    IncreasingDetermined(both, direct);
  }

  /** Removing beforehand any files that a cleanup would remove does not change what it leaves. */
  lemma RemovedBeforehand(files: seq<File>, kept: seq<nat>, config: Config, month: Calendar, now: int)
    requires KeepsSurvivors(files, kept, config, month, now)
    ensures AfterCleanup(Pick(files, kept), config, month, now) == AfterCleanup(files, config, month, now)
  {
    var rest := Pick(files, kept);
    SurvivorsAmongKept(files, kept, config, month, now);
    PickTwice(files, kept, Survivors(rest, |rest|, config, month, now));
  }

  /**
   Cleaning up at one time and again later leaves exactly what the later cleanup alone would have
   left. With equal times: a second cleanup changes nothing.
   */
  lemma CleanupsCompose(files: seq<File>, config: Config, month: Calendar, t1: int, t2: int)
    requires t1 <= t2
    ensures AfterCleanup(AfterCleanup(files, config, month, t1), config, month, t2)
         == AfterCleanup(files, config, month, t2)
  {
    CleanupsComposeAcross(files, month, config, t1, config, t2);
  }

  /** The same when the configuration has changed, as long as the windows have not moved back. */
  lemma CleanupsComposeAcross(files: seq<File>, month: Calendar, first: Config, t1: int, second: Config, t2: int)
    requires NoEarlier(first, t1, second, t2)
    ensures AfterCleanup(AfterCleanup(files, first, month, t1), second, month, t2)
         == AfterCleanup(files, second, month, t2)
  {
    var kept := Survivors(files, |files|, first, month, t1);
    forall i: nat | i < |files| && Survives(files, i, second, month, t2) ensures i in kept {
      SurvivesEarlier(files, i, month, first, t1, second, t2);
    }
    RemovedBeforehand(files, kept, second, month, t2);
  }

  /**
   The same when files were added between the cleanups and are listed anywhere: `present` are
   the positions of the files there at the first cleanup, `kept` of those there at the second.
   */
  lemma CleanupsComposeAround(files: seq<File>, present: seq<nat>, kept: seq<nat>, month: Calendar,
                              first: Config, t1: int, second: Config, t2: int)
    requires NoEarlier(first, t1, second, t2)
    requires Increasing(present) && (forall a :: 0 <= a < |present| ==> present[a] < |files|)
    requires Increasing(kept) && (forall a :: 0 <= a < |kept| ==> kept[a] < |files|)
    requires forall i: nat :: i < |files| && i !in present ==> i in kept
    requires forall a: nat :: a < |present| && Survives(Pick(files, present), a, first, month, t1) ==>
               present[a] in kept
    ensures AfterCleanup(Pick(files, kept), second, month, t2) == AfterCleanup(files, second, month, t2)
  {
    forall i: nat | i < |files| && Survives(files, i, second, month, t2) ensures i in kept {
      SurvivesEarlier(files, i, month, first, t1, second, t2);
      if i in present {
        var a: nat :| a < |present| && present[a] == i;
        if files[i].stamp.Some? && Superseded(Pick(files, present), a, first, month, t1) {
          FewerRivals(files, present, a, first, month, t1);
        }
      }
    }
    RemovedBeforehand(files, kept, second, month, t2);
  }

  /** In particular with the new files listed last. */
  lemma CleanupsComposeWithNewDumps(files: seq<File>, newer: seq<File>, month: Calendar,
                                    first: Config, t1: int, second: Config, t2: int)
    requires NoEarlier(first, t1, second, t2)
    ensures AfterCleanup(AfterCleanup(files, first, month, t1) + newer, second, month, t2)
         == AfterCleanup(files + newer, second, month, t2)
  {
    var n, all := |files|, files + newer;
    var before := seq(n, a => a);
    var kept1 := Survivors(files, n, first, month, t1);
    var kept := kept1 + seq(|newer|, a => n + a);
    assert Pick(all, before) == files;
    assert Pick(all, kept) == AfterCleanup(files, first, month, t1) + newer;
    forall i: nat | i < n ensures i in before {
      assert before[i] == i;
    }
    forall i: nat | i < |all| && i !in before ensures i in kept {
      assert kept[|kept1| + (i - n)] == i;
    }
    forall a: nat | a < |before| && Survives(files, a, first, month, t1) ensures before[a] in kept {
      assert a in kept1;
    }
    CleanupsComposeAround(all, before, kept, month, first, t1, second, t2);
  }

  // -------------------------------------------------- windows in seconds

  /** A dump at most so many days old always survives. */
  lemma RecentSurvives(files: seq<File>, i: nat, config: Config, month: Calendar, now: int)
    requires i < |files| && files[i].stamp.Some? && files[i].stamp.value >= now - config.daily * 86400
    ensures Survives(files, i, config, month, now)
  {
  }

  /** A dump before both bounds never does. */
  lemma OldIsRemoved(files: seq<File>, i: nat, config: Config, month: Calendar, now: int)
    requires i < |files| && files[i].stamp.Some?
    requires files[i].stamp.value < now - config.daily * 86400
    requires files[i].stamp.value < now - config.monthly * 31 * 86400
    ensures !Survives(files, i, config, month, now)
  {
  }

  predicate BetweenBounds(f: File, config: Config, now: int)
  {
    && f.stamp.Some?
    && now - config.monthly * 31 * 86400 <= f.stamp.value < now - config.daily * 86400
  }

  /** Of the dumps of one month between the bounds exactly one survives, and none of them is newer. */
  lemma OnePerMonthBetween(files: seq<File>, i: nat, config: Config, month: Calendar, now: int) returns (best: nat)
    requires i < |files| && BetweenBounds(files[i], config, now)
    ensures best < |files| && BetweenBounds(files[best], config, now)
    ensures month(files[best].stamp.value) == month(files[i].stamp.value) && Survives(files, best, config, month, now)
    ensures forall j: nat | j < |files| && BetweenBounds(files[j], config, now) ::
              month(files[j].stamp.value) == month(files[i].stamp.value) ==>
                files[j].stamp.value <= files[best].stamp.value
                && (Survives(files, j, config, month, now) <==> j == best)
  {
    best := OneOfEachMonthSurvives(files, i, config, month, now);
    forall j: nat | j < |files| && BetweenBounds(files[j], config, now)
      && month(files[j].stamp.value) == month(files[i].stamp.value)
      ensures InMonthlyWindow(files[j], config, now) && SameMonth(files[j], files[i], month) {}
  }

  /** What is not dated by its name always survives. */
  lemma UndatedSurvives(files: seq<File>, i: nat, config: Config, month: Calendar, now: int)
    requires i < |files| && files[i].stamp == None
    ensures Survives(files, i, config, month, now)
  {
  }

  /** The files left are the surviving ones. */
  lemma LeftAreSurvivors(files: seq<File>, config: Config, month: Calendar, now: int, f: File)
    ensures f in AfterCleanup(files, config, month, now)
       <==> exists i: nat :: i < |files| && files[i] == f && Survives(files, i, config, month, now)
  {
    var kept := Survivors(files, |files|, config, month, now);
    var rest := AfterCleanup(files, config, month, now);
    if f in rest {
      var a :| 0 <= a < |rest| && rest[a] == f;
      assert kept[a] in kept && files[kept[a]] == f;
    }
    if i: nat :| i < |files| && files[i] == f && Survives(files, i, config, month, now) {
      assert i in kept;
      var a :| 0 <= a < |kept| && kept[a] == i;
      assert rest[a] == f;
    }
  }
}
