/**
 The per-user event channel (`services/event_bus.rs`): a bounded ring of recent events that a
 reconnecting client replays from the last event it saw.
 */
module EventRing {

  const RING_BUFFER_CAPACITY: nat := 100

  datatype ServerEvent = ServerEvent(id: nat, eventType: string, payload: string)

  predicate DistinctIds(events: seq<ServerEvent>)
  {
    forall i, j :: 0 <= i < j < |events| ==> events[i].id != events[j].id
  }

  /** The events that a full history of publications leaves in the ring. */
  function Window(log: seq<ServerEvent>): seq<ServerEvent>
  {
    if |log| <= RING_BUFFER_CAPACITY then log else log[|log| - RING_BUFFER_CAPACITY..]
  }

  function Max(a: int, b: int): int
  {
    if a >= b then a else b
  }

  /** What followed position `k` of a history, as far as the ring reaches back. */
  function Replay(log: seq<ServerEvent>, k: nat): seq<ServerEvent>
    requires k < |log|
  {
    log[Max(k + 1, |log| - RING_BUFFER_CAPACITY)..]
  }

  lemma SliceGrows(ring: seq<ServerEvent>, low: nat, high: nat)
    requires low <= high < |ring|
    ensures ring[low..high] + [ring[high]] == ring[low..high + 1]
  {
  }

  /** The loop over the ring: whether the event was met, and those behind it. */
  method EventsAfter(ring: seq<ServerEvent>, id: nat) returns (seen: bool, ghost at: nat, out: seq<ServerEvent>)
    ensures seen ==> at < |ring| && ring[at].id == id && out == ring[at + 1..]
    ensures !seen ==> forall m :: 0 <= m < |ring| ==> ring[m].id != id
  {
    seen, at, out := false, 0, [];
    var i := 0;
    while i < |ring|
      invariant i <= |ring|
      invariant !seen ==> out == [] && forall m :: 0 <= m < i ==> ring[m].id != id
      invariant seen ==> at < i && ring[at].id == id && out == ring[at + 1..i]
    {
      if seen {
        SliceGrows(ring, at + 1, i);
        out := out + [ring[i]];
      } else if ring[i].id == id {
        seen, at := true, i;
      }
      i := i + 1;
    }
    assert seen ==> ring[at + 1..i] == ring[at + 1..];
  }

  class UserChannel {
    var ring: seq<ServerEvent>
    /** Everything ever published to this user. */
    ghost var log: seq<ServerEvent>

    ghost predicate Valid()
      reads this
    {
      ring == Window(log)
    }

    constructor ()
      ensures Valid() && log == []
    {
      ring, log := [], [];
    }

    method Publish(event: ServerEvent)
      requires Valid()
      modifies this
      ensures Valid() && log == old(log) + [event]
    {
      if |ring| >= RING_BUFFER_CAPACITY {
        ring := ring[1..];
      }
      ring := ring + [event];
      log := log + [event];
    }

    /**
     The events to send to a client whose last event had this id. With distinct ids: for the
     event at position `k`, all that followed it, as far as the ring reaches back; for an id
     never published, the whole ring.
     */
    method ReplayAfter(lastEventId: nat) returns (out: seq<ServerEvent>)
      requires Valid()
      ensures forall k :: 0 <= k < |log| && log[k].id == lastEventId && DistinctIds(log) ==>
                            out == Replay(log, k)
      ensures (forall k :: 0 <= k < |log| ==> log[k].id != lastEventId) ==> out == Window(log)
    {
      var seen, at, following := EventsAfter(ring, lastEventId);
      out := following;
      if seen {
        WindowFrom(log, at, lastEventId);
      } else {
        out := ring;
        WindowWithout(log, lastEventId);
      }
    }
  }

  lemma WindowFrom(log: seq<ServerEvent>, at: nat, id: nat)
    requires at < |Window(log)| && Window(log)[at].id == id
    ensures exists k :: 0 <= k < |log| && log[k].id == id
    ensures forall k :: 0 <= k < |log| && log[k].id == id && DistinctIds(log) ==>
                          Window(log)[at + 1..] == Replay(log, k)
  {
    var start := |log| - |Window(log)|;
    assert Window(log) == log[start..];
    assert log[start + at].id == id;
    assert Window(log)[at + 1..] == log[start + at + 1..];
    forall k | 0 <= k < |log| && log[k].id == id && DistinctIds(log) ensures k == start + at {
      assert !(k < start + at) && !(start + at < k);
    }
  }

  lemma WindowWithout(log: seq<ServerEvent>, id: nat)
    requires forall m :: 0 <= m < |Window(log)| ==> Window(log)[m].id != id
    ensures forall k :: 0 <= k < |log| && log[k].id == id ==>
                          Window(log) == Replay(log, k)
  {
    var start := |log| - |Window(log)|;
    forall k | start <= k < |log| ensures log[k].id != id {
      assert log[k] == Window(log)[k - start];
    }
  }

  /**
   A client that holds everything up to `k` misses nothing after the replay exactly when at most
   a ring's length of events followed; otherwise it misses exactly the oldest of those.
   */
  lemma ReplayClosesTheGap(log: seq<ServerEvent>, k: nat)
    requires k < |log|
    ensures |log| - (k + 1) <= RING_BUFFER_CAPACITY <==> log[..k + 1] + Replay(log, k) == log
    ensures |log| - (k + 1) > RING_BUFFER_CAPACITY ==>
              log[..k + 1] + log[k + 1..|log| - RING_BUFFER_CAPACITY] + Replay(log, k) == log
  {
    if |log| - (k + 1) > RING_BUFFER_CAPACITY {
      assert |log[..k + 1] + Replay(log, k)| < |log|;
    }
  }

  /** The ring holds the last hundred events. */
  lemma LastHundred(log: seq<ServerEvent>)
    ensures |Window(log)| == if |log| < 100 then |log| else 100
    ensures Window(log) == log[|log| - |Window(log)|..]
  {
  }

  /** Of a gap of up to a hundred events nothing is lost, and of a gap of a hundred and one the oldest is. */
  lemma HundredIsEnough(log: seq<ServerEvent>, k: nat)
    requires k < |log|
    ensures |log| - (k + 1) <= 100 ==> Replay(log, k) == log[k + 1..]
    ensures |log| - (k + 1) == 101 ==> Replay(log, k) == log[k + 2..]
  {
  }
}

/**
 The per-user limit on open connections (`register_connection` and `ConnectionGuard::drop`): a
 registration adds one to a shared counter, then decides on the value it saw, and takes the one
 back if that was too many. Threads interleave between the two steps.
 */
module ConnectionLimit {

  const TWO_32: nat := 0x1_0000_0000

  /** A registration after its addition, with the counter it saw, or after it was admitted. */
  datatype Phase = Added(prev: nat) | Holding

  datatype State = State(counter: nat, live: map<nat, Phase>)

  datatype Step = Add(id: nat) | Admit(id: nat) | Reject(id: nat) | Drop(id: nat)

  function Init(): State
  {
    State(0, map[])
  }

  /** Fewer registrations than the counter can count are alive at once. */
  predicate Room(s: State)
  {
    |s.live| < TWO_32 - 1
  }

  predicate Enabled(limit: nat, s: State, step: Step)
  {
    match step
    case Add(id) => id !in s.live && Room(s)
    case Admit(id) => id in s.live && s.live[id].Added? && s.live[id].prev + 1 <= limit
    case Reject(id) => id in s.live && s.live[id].Added? && s.live[id].prev + 1 > limit
    case Drop(id) => id in s.live && s.live[id].Holding?
  }

  /** The counter is 32 bits wide and wraps both ways. */
  function Apply(s: State, step: Step): State
  {
    match step
    case Add(id) => State((s.counter + 1) % TWO_32, s.live[id := Added(s.counter)])
    case Admit(id) => State(s.counter, s.live[id := Holding])
    case Reject(id) => State((s.counter + TWO_32 - 1) % TWO_32, s.live - {id})
    case Drop(id) => State((s.counter + TWO_32 - 1) % TWO_32, s.live - {id})
  }

  /** The states of a run of `steps` from `s`, when each step is enabled in its turn. */
  ghost predicate Runs(limit: nat, s: State, steps: seq<Step>)
    decreases |steps|
  {
    steps == [] || (Enabled(limit, s, steps[0]) && Runs(limit, Apply(s, steps[0]), steps[1..]))
  }

  function After(s: State, steps: seq<Step>): State
    decreases |steps|
  {
    if steps == [] then s else After(Apply(s, steps[0]), steps[1..])
  }

  function Held(s: State): set<nat>
  {
    set id | id in s.live && s.live[id].Holding?
  }

  function Undecided(s: State): set<nat>
  {
    set id | id in s.live && s.live[id].Added?
  }

  /** The registrations that hold a guard or are bound to get one. */
  function Winners(limit: nat, s: State): set<nat>
  {
    set id | id in s.live && (s.live[id].Holding? || s.live[id].prev < limit)
  }

  ghost predicate Invariant(limit: nat, s: State)
  {
    s.counter == |s.live| < TWO_32 && |Winners(limit, s)| <= limit
  }

  lemma SubsetSize(a: set<nat>, b: set<nat>)
    requires a <= b
    ensures |a| <= |b|
  {
    assert b == a + (b - a);
  }

  lemma AddKeepsInvariant(limit: nat, s: State, id: nat)
    requires Invariant(limit, s) && Enabled(limit, s, Add(id))
    ensures Invariant(limit, Apply(s, Add(id)))
  {
    var t := Apply(s, Add(id));
    assert t.live.Keys == s.live.Keys + {id};
    assert |t.live.Keys| == |s.live.Keys| + 1;
    if s.counter < limit {
      assert Winners(limit, t) == Winners(limit, s) + {id};
      SubsetSize(Winners(limit, s), s.live.Keys);
    } else {
      assert Winners(limit, t) == Winners(limit, s);
    }
  }

  lemma AdmitKeepsInvariant(limit: nat, s: State, id: nat)
    requires Invariant(limit, s) && Enabled(limit, s, Admit(id))
    ensures Invariant(limit, Apply(s, Admit(id)))
  {
    var t := Apply(s, Admit(id));
    assert t.live.Keys == s.live.Keys;
    assert |t.live| == |t.live.Keys| && |s.live| == |s.live.Keys|;
    assert Winners(limit, t) == Winners(limit, s);
  }

  /** Taking one back, whether on a refusal or when a guard is dropped, never underflows. */
  lemma RemoveKeepsInvariant(limit: nat, s: State, id: nat)
    requires Invariant(limit, s) && id in s.live
    ensures var t := State((s.counter + TWO_32 - 1) % TWO_32, s.live - {id});
            Invariant(limit, t) && s.counter > 0 && t.counter == s.counter - 1
  {
    var t := State((s.counter + TWO_32 - 1) % TWO_32, s.live - {id});
    assert t.live.Keys == s.live.Keys - {id};
    assert |t.live.Keys| == |s.live.Keys| - 1;
    assert |t.live| == |t.live.Keys| && |s.live| == |s.live.Keys|;
    SubsetSize(Winners(limit, t), Winners(limit, s));
  }

  lemma StepKeepsInvariant(limit: nat, s: State, step: Step)
    requires Invariant(limit, s) && Enabled(limit, s, step)
    ensures Invariant(limit, Apply(s, step))
  {
    match step
    case Add(id) => AddKeepsInvariant(limit, s, id);
    case Admit(id) => AdmitKeepsInvariant(limit, s, id);
    case Reject(id) => RemoveKeepsInvariant(limit, s, id);
    case Drop(id) => RemoveKeepsInvariant(limit, s, id);
  }

  lemma {:induction false} RunKeepsInvariant(limit: nat, s: State, steps: seq<Step>)
    requires Invariant(limit, s) && Runs(limit, s, steps)
    ensures Invariant(limit, After(s, steps))
    decreases |steps|
  {
    if steps != [] {
      StepKeepsInvariant(limit, s, steps[0]);
      RunKeepsInvariant(limit, Apply(s, steps[0]), steps[1..]);
    }
  }

  /**
   Under every interleaving the counter is the number of guards held plus the registrations that
   have added and not yet decided, and the guards held never exceed the limit.
   */
  lemma LimitIsSafe(limit: nat, steps: seq<Step>)
    requires Runs(limit, Init(), steps)
    ensures var s := After(Init(), steps);
            s.counter == |Held(s)| + |Undecided(s)| && |Held(s)| <= limit
  {
    assert Winners(limit, Init()) == {};
    RunKeepsInvariant(limit, Init(), steps);
    var s := After(Init(), steps);
    assert s.live.Keys == Held(s) + Undecided(s) && Held(s) !! Undecided(s);
    SubsetSize(Held(s), Winners(limit, s));
  }

  /**
   A registration is decided as the guards held would have it, exactly when they leave no room
   anyway or there is room for the undecided registrations as well.
   */
  lemma AdmissionIsExact(limit: nat, steps: seq<Step>, id: nat)
    requires Runs(limit, Init(), steps + [Add(id)])
    ensures var before := After(Init(), steps);
            var s := Apply(before, Add(id));
            (Enabled(limit, s, Admit(id)) <==> |Held(before)| < limit)
            <==> (|Held(before)| >= limit || |Held(before)| + |Undecided(before)| < limit)
  {
    RunsPrefix(limit, Init(), steps, Add(id));
    LimitIsSafe(limit, steps);
  }

  /** With nobody between the two steps, a registration is admitted exactly while there is room. */
  lemma QuietAdmissionIsExact(limit: nat, steps: seq<Step>, id: nat)
    requires Runs(limit, Init(), steps + [Add(id)])
    requires Undecided(After(Init(), steps)) == {}
    ensures var s := Apply(After(Init(), steps), Add(id));
            Enabled(limit, s, Admit(id)) <==> |Held(After(Init(), steps))| < limit
  {
    AdmissionIsExact(limit, steps, id);
  }

  lemma {:induction false} RunsPrefix(limit: nat, s: State, steps: seq<Step>, last: Step)
    ensures Runs(limit, s, steps + [last]) <==> Runs(limit, s, steps) && Enabled(limit, After(s, steps), last)
    decreases |steps|
  {
    var all := steps + [last];
    if steps == [] {
      assert all[1..] == [];
    } else {
      assert all[1..] == steps[1..] + [last];
      RunsPrefix(limit, Apply(s, steps[0]), steps[1..], last);
    }
  }

  /**
   The window costs accuracy, not safety: a registration on its way out still counts, so another
   can be refused although no guard is held at all.
   */
  lemma RefusalWithoutGuards()
    ensures var steps := [Add(0), Admit(0), Add(1), Drop(0), Add(2)];
            var s := After(Init(), steps);
            Runs(1, Init(), steps) && Held(s) == {} && Enabled(1, s, Reject(2))
  {
    var s1 := Apply(Init(), Add(0));
    var s2 := Apply(s1, Admit(0));
    var s3 := Apply(s2, Add(1));
    var s4 := Apply(s3, Drop(0));
    var s5 := Apply(s4, Add(2));
    assert s1.live == map[0 := Added(0)] && s2.live == map[0 := Holding];
    assert s3.live == map[0 := Holding, 1 := Added(1)];
    assert s4.live == map[1 := Added(1)];
    assert s5.live == map[1 := Added(1), 2 := Added(1)];
    var steps := [Add(0), Admit(0), Add(1), Drop(0), Add(2)];
    assert steps[1..] == [Admit(0), Add(1), Drop(0), Add(2)];
    assert steps[1..][1..] == [Add(1), Drop(0), Add(2)];
    assert steps[1..][1..][1..] == [Drop(0), Add(2)];
    assert steps[1..][1..][1..][1..] == [Add(2)];
    assert steps[1..][1..][1..][1..][1..] == [];
    assert Runs(1, s4, [Add(2)]) && After(s4, [Add(2)]) == s5;
    assert Runs(1, s3, [Drop(0), Add(2)]) && After(s3, [Drop(0), Add(2)]) == s5;
    assert Runs(1, s2, steps[1..][1..]) && After(s2, steps[1..][1..]) == s5;
  }

  /** A registration that has added can take exactly one of the two ways. */
  lemma AdmitOrReject(limit: nat, s: State, id: nat)
    requires id in s.live && s.live[id].Added?
    ensures Enabled(limit, s, Admit(id)) <==> !Enabled(limit, s, Reject(id))
  {
  }

  /** One can always be begun while fewer than 2^32 - 1 are alive, and a held guard can always be dropped. */
  lemma AlwaysOpen(limit: nat, s: State, id: nat)
    ensures id !in s.live && |s.live| < 4294967295 ==> Enabled(limit, s, Add(id))
    ensures id in Held(s) ==> Enabled(limit, s, Drop(id))
  {
  }

  /** Dropping the guard or refusing ends the registration; admitting makes it hold one. */
  lemma StepsChangeOne(limit: nat, s: State, id: nat)
    requires Invariant(limit, s)
    ensures Enabled(limit, s, Add(id)) ==>
              Undecided(Apply(s, Add(id))) == Undecided(s) + {id} && Held(Apply(s, Add(id))) == Held(s)
    ensures Enabled(limit, s, Admit(id)) ==>
              Undecided(Apply(s, Admit(id))) == Undecided(s) - {id} && Held(Apply(s, Admit(id))) == Held(s) + {id}
    ensures Enabled(limit, s, Reject(id)) ==>
              Undecided(Apply(s, Reject(id))) == Undecided(s) - {id} && Held(Apply(s, Reject(id))) == Held(s)
    ensures Enabled(limit, s, Drop(id)) ==>
              Undecided(Apply(s, Drop(id))) == Undecided(s) && Held(Apply(s, Drop(id))) == Held(s) - {id}
  {
  }
}

/**
 Channel creation (`channel_for`): a lookup, and for a user without a channel a second, exclusive
 look at the entry that keeps the first channel put there.
 */
module ChannelTable {

  datatype Call =
    | Looking(user: nat)
    | Creating(user: nat, own: nat)
    | Done(user: nat, channel: nat)

  datatype State = State(table: map<nat, nat>, calls: map<nat, Call>, next: nat)

  datatype Step = Begin(call: nat, user: nat) | Lookup(call: nat) | Enter(call: nat)

  predicate Enabled(s: State, step: Step)
  {
    match step
    case Begin(c, _) => c !in s.calls
    case Lookup(c) => c in s.calls && s.calls[c].Looking?
    case Enter(c) => c in s.calls && s.calls[c].Creating?
  }

  function Apply(s: State, step: Step): State
    requires Enabled(s, step)
  {
    match step
    case Begin(c, user) => s.(calls := s.calls[c := Looking(user)])
    case Lookup(c) =>
      var user := s.calls[c].user;
      if user in s.table then s.(calls := s.calls[c := Done(user, s.table[user])])
      else s.(calls := s.calls[c := Creating(user, s.next)], next := s.next + 1)
    case Enter(c) =>
      var Creating(user, own) := s.calls[c];
      if user in s.table then s.(calls := s.calls[c := Done(user, s.table[user])])
      else State(s.table[user := own], s.calls[c := Done(user, own)], s.next)
  }

  ghost predicate Reaches(s: State, steps: seq<Step>, t: State)
    decreases |steps|
  {
    if steps == [] then s == t else Enabled(s, steps[0]) && Reaches(Apply(s, steps[0]), steps[1..], t)
  }

  function Init(): State
  {
    State(map[], map[], 0)
  }

  /** Channels still private to a call, and channels in the table, are all different. */
  ghost predicate Invariant(s: State)
  {
    && (forall u :: u in s.table ==> s.table[u] < s.next)
    && (forall u, v :: u in s.table && v in s.table && u != v ==> s.table[u] != s.table[v])
    && (forall c :: c in s.calls && s.calls[c].Creating? ==>
        s.calls[c].own < s.next && s.calls[c].own !in s.table.Values)
    && (forall c, d :: c in s.calls && d in s.calls && c != d && s.calls[c].Creating? && s.calls[d].Creating? ==>
                         s.calls[c].own != s.calls[d].own)
    && (forall c :: c in s.calls && s.calls[c].Done? ==>
                      s.calls[c].user in s.table && s.table[s.calls[c].user] == s.calls[c].channel)
  }

  /** No entry is ever replaced or removed. */
  predicate Extends(before: map<nat, nat>, after: map<nat, nat>)
  {
    forall u :: u in before ==> u in after && after[u] == before[u]
  }

  lemma LookupKeepsInvariant(s: State, c: nat)
    requires Invariant(s) && Enabled(s, Lookup(c))
    ensures Invariant(Apply(s, Lookup(c)))
  {
    if s.calls[c].user !in s.table {
      assert s.next !in s.table.Values;
    }
  }

  lemma EnterKeepsInvariant(s: State, c: nat)
    requires Invariant(s) && Enabled(s, Enter(c))
    ensures Invariant(Apply(s, Enter(c)))
  {
    if s.calls[c].user in s.table {
      FinishKeepsInvariant(s, c);
    } else {
      FirstEntryKeepsInvariant(s, c);
    }
  }

  lemma FinishKeepsInvariant(s: State, c: nat)
    requires Invariant(s) && c in s.calls && s.calls[c].Creating? && s.calls[c].user in s.table
    ensures Invariant(s.(calls := s.calls[c := Done(s.calls[c].user, s.table[s.calls[c].user])]))
  {
  }

  lemma FirstEntryKeepsInvariant(s: State, c: nat)
    requires Invariant(s) && c in s.calls && s.calls[c].Creating? && s.calls[c].user !in s.table
    ensures var Creating(user, own) := s.calls[c];
            Invariant(State(s.table[user := own], s.calls[c := Done(user, own)], s.next))
  {
    var Creating(user, own) := s.calls[c];
    assert forall u :: u in s.table ==> s.table[u] in s.table.Values;
    assert s.table[user := own].Values <= s.table.Values + {own};
  }

  lemma StepKeepsInvariant(s: State, step: Step)
    requires Invariant(s) && Enabled(s, step)
    ensures Invariant(Apply(s, step)) && Extends(s.table, Apply(s, step).table)
  {
    match step
    case Begin(_, _) =>
    case Lookup(c) => LookupKeepsInvariant(s, c);
    case Enter(c) => EnterKeepsInvariant(s, c);
  }

  lemma {:induction false} RunKeepsInvariant(s: State, steps: seq<Step>, t: State)
    requires Invariant(s) && Reaches(s, steps, t)
    ensures Invariant(t) && Extends(s.table, t.table)
    decreases |steps|
  {
    if steps != [] {
      StepKeepsInvariant(s, steps[0]);
      RunKeepsInvariant(Apply(s, steps[0]), steps[1..], t);
    }
  }

  /** However calls interleave, all finished calls for one user share a channel, and only they do. */
  lemma CallersAgree(steps: seq<Step>, s: State, c: nat, d: nat)
    requires Reaches(Init(), steps, s)
    requires c in s.calls && d in s.calls && s.calls[c].Done? && s.calls[d].Done?
    ensures s.calls[c].channel == s.calls[d].channel <==> s.calls[c].user == s.calls[d].user
  {
    RunKeepsInvariant(Init(), steps, s);
  }

  /** A channel once handed out stays the user's channel. */
  lemma ChannelIsStable(steps: seq<Step>, s: State, more: seq<Step>, t: State, user: nat)
    requires Reaches(Init(), steps, s) && Reaches(s, more, t) && user in s.table
    ensures user in t.table && t.table[user] == s.table[user]
  {
    RunKeepsInvariant(Init(), steps, s);
    RunKeepsInvariant(s, more, t);
  }

  /** A call keeps the user it was made for. */
  lemma {:induction false} CallKeepsUser(s: State, steps: seq<Step>, t: State, c: nat)
    requires Reaches(s, steps, t) && c in s.calls
    ensures c in t.calls && t.calls[c].user == s.calls[c].user
    decreases |steps|
  {
    if steps != [] {
      CallKeepsUser(Apply(s, steps[0]), steps[1..], t, c);
    }
  }

  /** A call for a user begins by looking that user up, and at most two steps of its own finish it. */
  lemma CallProceeds(s: State, c: nat, user: nat)
    ensures c !in s.calls ==> Enabled(s, Begin(c, user)) && Apply(s, Begin(c, user)).calls[c] == Looking(user)
    ensures c in s.calls && s.calls[c].Looking? ==>
              Enabled(s, Lookup(c)) && !Apply(s, Lookup(c)).calls[c].Looking?
    ensures c in s.calls && s.calls[c].Creating? ==>
              Enabled(s, Enter(c)) && Apply(s, Enter(c)).calls[c].Done?
  {
  }
}
