/**
 * The LD6001A target tracker: it keeps the last attributes, the entry time
 * and the last-seen time of each target id, diffs each radar snapshot
 * against them and reports targets entering and leaving, the latter with
 * the whole seconds they stayed. The clock is the `now` parameter and the
 * handler the tracker calls is an event log.
 */
module TargetTrackers {
  import opened Bytes
  import opened Ld6001aParser

  /** The handler calls: `on_target_enter` and `on_target_left`. */
  datatype TrackerEvent =
    | Entered(id: uint32)
    | Left(id: uint32, dwell: uint32)

  /** The ids of a snapshot. */
  function Ids(ps: seq<Person>): set<uint32>
  {
    if ps == [] then {} else Ids(ps[..|ps| - 1]) + {ps[|ps| - 1].id}
  }

  /** The position at which `id` first occurs in the snapshot. */
  function FirstIndex(ps: seq<Person>, id: uint32): (i: nat)
    requires id in Ids(ps)
    ensures i < |ps| && ps[i].id == id
    ensures forall j :: 0 <= j < i ==> ps[j].id != id
  {
    var init := ps[..|ps| - 1];
    if id in Ids(init) then FirstIndex(init, id) else InIds(init); |ps| - 1
  }

  /** Every id of the snapshot is in its id set. */
  lemma {:induction false} InIds(ps: seq<Person>)
    ensures forall i :: 0 <= i < |ps| ==> ps[i].id in Ids(ps)
  {
    if ps != [] {
      InIds(ps[..|ps| - 1]);
      assert forall i :: 0 <= i < |ps| - 1 ==> ps[i] == ps[..|ps| - 1][i];
    }
  }

  /** `targets_` after the snapshot: each id maps to its last occurrence. */
  function Absorbed(targets: map<uint32, Person>, ps: seq<Person>): map<uint32, Person>
  {
    if ps == [] then targets
    else Absorbed(targets, ps[..|ps| - 1])[ps[|ps| - 1].id := ps[|ps| - 1]]
  }

  /** The enter events of a snapshot, given the ids that already have an entry time. */
  function EnterEvents(ps: seq<Person>, known: set<uint32>): seq<TrackerEvent>
  {
    if ps == [] then []
    else
      var init := ps[..|ps| - 1];
      var id := ps[|ps| - 1].id;
      EnterEvents(init, known) + (if id in known || id in Ids(init) then [] else [Entered(id)])
  }

  /** Whole seconds from `entry` to `now` on the wrapping 32-bit millisecond clock. */
  function Dwell(entry: uint32, now: uint32): uint32
  {
    ((now - entry) % TWO_32) / 1000
  }

  /**
   * `lefts` reports each id of `gone` once, in any order, with the dwell
   * since its entry time.
   */
  predicate LeftEventsFor(lefts: seq<TrackerEvent>, gone: set<uint32>, entries: map<uint32, uint32>, now: uint32)
  {
    && |lefts| == |gone| && gone <= entries.Keys
    && (forall i :: 0 <= i < |lefts| ==>
          lefts[i].Left? && lefts[i].id in gone && lefts[i].id in entries
          && lefts[i].dwell == Dwell(entries[lefts[i].id], now))
    && (forall i, j :: 0 <= i < j < |lefts| ==> lefts[i].id != lefts[j].id)
  }

  lemma IdsAppend(ps: seq<Person>, p: Person)
    ensures Ids(ps + [p]) == Ids(ps) + {p.id}
  {
    assert (ps + [p])[..|ps|] == ps;
  }

  lemma AbsorbedAppend(targets: map<uint32, Person>, ps: seq<Person>, p: Person)
    ensures Absorbed(targets, ps + [p]) == Absorbed(targets, ps)[p.id := p]
  {
    assert (ps + [p])[..|ps|] == ps;
  }

  lemma EnterEventsAppend(ps: seq<Person>, p: Person, known: set<uint32>)
    ensures EnterEvents(ps + [p], known)
      == EnterEvents(ps, known) + (if p.id in known || p.id in Ids(ps) then [] else [Entered(p.id)])
  {
    assert (ps + [p])[..|ps|] == ps;
  }

  /** `targets_` keeps every id it ever had and gains the snapshot's. */
  lemma {:induction false} AbsorbedKeys(targets: map<uint32, Person>, ps: seq<Person>)
    ensures Absorbed(targets, ps).Keys == targets.Keys + Ids(ps)
  {
    if ps != [] {
      AbsorbedKeys(targets, ps[..|ps| - 1]);
    }
  }

  /** Each snapshot id maps to its last occurrence; every other id keeps its attributes. */
  lemma AbsorbedNothing(targets: map<uint32, Person>)
    ensures Absorbed(targets, []) == targets && Ids([]) == {}
  {
  }

  lemma {:induction false} AbsorbedKeepsLast(targets: map<uint32, Person>, ps: seq<Person>, id: uint32)
    ensures Absorbed(targets, ps).Keys == targets.Keys + Ids(ps)
    ensures id in Ids(ps) ==> exists i :: (0 <= i < |ps| && Absorbed(targets, ps)[id] == ps[i]
      && ps[i].id == id && forall j :: i < j < |ps| ==> ps[j].id != id)
    ensures id !in Ids(ps) && id in targets ==> Absorbed(targets, ps)[id] == targets[id]
  {
    AbsorbedKeys(targets, ps);
    hide Absorbed, Ids;
    if ps == [] {
      AbsorbedNothing(targets);
    } else {
      var init := ps[..|ps| - 1];
      var last := ps[|ps| - 1];
      assert ps == init + [last];
      IdsAppend(init, last);
      AbsorbedAppend(targets, init, last);
      AbsorbedKeepsLast(targets, init, id);
      if id in Ids(ps) && id != ps[|ps| - 1].id {
        var i :| 0 <= i < |init| && Absorbed(targets, init)[id] == init[i]
          && init[i].id == id && forall j :: i < j < |init| ==> init[j].id != id;
        assert ps[i] == init[i];
      }
    }
  }

  /** An id gets an enter event exactly when it is in the snapshot and had no entry time. */
  lemma {:induction false} EnterEventsExact(ps: seq<Person>, known: set<uint32>, id: uint32)
    ensures Entered(id) in EnterEvents(ps, known) <==> id in Ids(ps) && id !in known
  {
    if ps != [] {
      EnterEventsExact(ps[..|ps| - 1], known, id);
    }
  }

  /** Enter events are all enter events, for new ids only. */
  lemma {:induction false} EnterEventsNew(ps: seq<Person>, known: set<uint32>)
    ensures forall e :: e in EnterEvents(ps, known) ==> e.Entered? && e.id in Ids(ps) && e.id !in known
  {
    if ps != [] {
      EnterEventsNew(ps[..|ps| - 1], known);
    }
  }

  /** The events' ids occur in `ps`, each first occurring after the one before. */
  predicate InFirstOccurrenceOrder(ev: seq<TrackerEvent>, ps: seq<Person>)
  {
    forall i, j :: 0 <= i < j < |ev| ==>
      ev[i].id in Ids(ps) && ev[j].id in Ids(ps) && FirstIndex(ps, ev[i].id) < FirstIndex(ps, ev[j].id)
  }

  /** Each new id enters once, even when it repeats in the snapshot, and in the order ids first occur. */
  lemma {:induction false} EnterEventsInFirstOccurrenceOrder(ps: seq<Person>, known: set<uint32>)
    ensures InFirstOccurrenceOrder(EnterEvents(ps, known), ps)
  {
    if ps != [] {
      var init := ps[..|ps| - 1];
      var id := ps[|ps| - 1].id;
      EnterEventsInFirstOccurrenceOrder(init, known);
      EnterEventsNew(init, known);
      var ev := EnterEvents(ps, known);
      var early := EnterEvents(init, known);
      assert Ids(ps) == Ids(init) + {id};
      assert ev[..|early|] == early;
      forall i, j | 0 <= i < j < |ev|
        ensures ev[i].id in Ids(ps) && ev[j].id in Ids(ps) && FirstIndex(ps, ev[i].id) < FirstIndex(ps, ev[j].id)
      {
        var a, b := ev[i].id, ev[j].id;
        assert ev[i] == early[i] && early[i] in early;
        assert a in Ids(init);
        assert FirstIndex(ps, a) == FirstIndex(init, a);
        if j < |early| {
          assert ev[j] == early[j] && early[j] in early;
          assert b in Ids(init);
          assert FirstIndex(ps, b) == FirstIndex(init, b);
          assert InFirstOccurrenceOrder(early, init);
        } else {
          assert b == id && id !in Ids(init);
          assert FirstIndex(ps, b) == |init|;
          assert FirstIndex(init, a) < |init|;
        }
      }
      assert InFirstOccurrenceOrder(ev, ps);
    }
  }

  /** Distinct ids drawn from a set cover as many ids as there are events. */
  lemma {:induction false} DistinctIdsCount(lefts: seq<TrackerEvent>)
    requires forall i, j :: 0 <= i < j < |lefts| ==> lefts[i].id != lefts[j].id
    ensures |set i | 0 <= i < |lefts| :: lefts[i].id| == |lefts|
  {
    if lefts != [] {
      var init := lefts[..|lefts| - 1];
      DistinctIdsCount(init);
      var all := set i | 0 <= i < |lefts| :: lefts[i].id;
      var early := set i | 0 <= i < |init| :: init[i].id;
      assert all == early + {lefts[|lefts| - 1].id};
      assert lefts[|lefts| - 1].id !in early;
    }
  }

  lemma {:induction false} SubsetSize(a: set<uint32>, b: set<uint32>)
    requires a <= b
    ensures |a| <= |b|
    decreases |a|
  {
    if x :| x in a {
      SubsetSize(a - {x}, b - {x});
    }
  }

  lemma SubsetOfSameSize(a: set<uint32>, b: set<uint32>)
    requires a <= b && |a| == |b|
    ensures a == b
  {
    if x :| x in b && x !in a {
      SubsetSize(a, b - {x});
    }
  }

  /** Every id that left gets its left event: the events cover the gone set. */
  lemma LeftEventsCoverGone(lefts: seq<TrackerEvent>, gone: set<uint32>, entries: map<uint32, uint32>, now: uint32)
    requires LeftEventsFor(lefts, gone, entries, now)
    ensures forall id :: id in gone ==> exists i :: 0 <= i < |lefts| && lefts[i] == Left(id, Dwell(entries[id], now))
  {
    var reported := set i | 0 <= i < |lefts| :: lefts[i].id;
    DistinctIdsCount(lefts);
    SubsetOfSameSize(reported, gone);
    forall id | id in gone
      ensures exists i :: 0 <= i < |lefts| && lefts[i] == Left(id, Dwell(entries[id], now))
    {
      var i :| 0 <= i < |lefts| && lefts[i].id == id;
      assert lefts[i] == Left(id, Dwell(entries[id], now));
    }
  }

  /** The dwell is the elapsed time in whole seconds, across a wrap of the clock as well. */
  lemma DwellIsElapsedSeconds(entry: uint32, now: uint32, elapsed: nat)
    requires elapsed < TWO_32 && (entry + elapsed) % TWO_32 == now
    ensures Dwell(entry, now) == elapsed / 1000
  {
    assert (now - entry) % TWO_32 == elapsed;
  }

  /** One more id leaves: the left events extend by its event. */
  lemma LeftEventsExtend(lefts: seq<TrackerEvent>, gone: set<uint32>, entries: map<uint32, uint32>, now: uint32, id: uint32)
    requires LeftEventsFor(lefts, gone, entries, now) && id in entries && id !in gone
    ensures LeftEventsFor(lefts + [Left(id, Dwell(entries[id], now))], gone + {id}, entries, now)
  {
    var more := lefts + [Left(id, Dwell(entries[id], now))];
    forall i | 0 <= i < |lefts| ensures more[i] == lefts[i] && more[i].id != id {
      assert lefts[i].id in gone;
    }
  }

  /** The tracker's maps and its event log. */
  datatype TrackerState = TrackerState(
    targets: map<uint32, Person>,
    entryTimes: map<uint32, uint32>,
    lastSeenTimes: map<uint32, uint32>,
    events: seq<TrackerEvent>)

  /** Entry and last-seen records exist for the same ids, all of them tracked ids. */
  predicate Tracked(s: TrackerState)
  {
    s.entryTimes.Keys == s.lastSeenTimes.Keys && s.entryTimes.Keys <= s.targets.Keys
  }

  /**
   * What `update` makes of state `s` given a snapshot at time `now`: the
   * targets absorb the snapshot; exactly the snapshot's ids have records, the
   * new ones entered now and all last seen now; the log gains the enter
   * events and then `lefts`, one left event per id that had entered before
   * and is missing from the snapshot.
   */
  predicate UpdatedBy(s: TrackerState, snapshot: seq<Person>, now: uint32, r: TrackerState, lefts: seq<TrackerEvent>)
  {
    && r.targets == Absorbed(s.targets, snapshot)
    && r.entryTimes.Keys == Ids(snapshot) && r.lastSeenTimes.Keys == Ids(snapshot)
    && (forall id :: id in r.entryTimes ==>
          r.entryTimes[id] == (if id in s.entryTimes then s.entryTimes[id] else now))
    && (forall id :: id in r.lastSeenTimes ==> r.lastSeenTimes[id] == now)
    && r.events == s.events + EnterEvents(snapshot, s.entryTimes.Keys) + lefts
    && LeftEventsFor(lefts, s.entryTimes.Keys - Ids(snapshot), s.entryTimes, now)
  }

  class TargetTracker {
    var targets: map<uint32, Person>
    var entryTimes: map<uint32, uint32>
    var lastSeenTimes: map<uint32, uint32>
    var events: seq<TrackerEvent>

    function State(): TrackerState
      reads this
    {
      TrackerState(targets, entryTimes, lastSeenTimes, events)
    }

    constructor ()
      ensures State() == TrackerState(map[], map[], map[], []) && Tracked(State())
    {
      targets := map[];
      entryTimes := map[];
      lastSeenTimes := map[];
      events := [];
    }

    /**
     * `update`: record the snapshot, report each target that entered, then
     * each target that was entered before and is not in the snapshot; `lefts`
     * names the left events in the order they came out.
     */
    method Update(snapshot: seq<Person>, now: uint32) returns (ghost lefts: seq<TrackerEvent>)
      requires Tracked(State())
      modifies this
      ensures Tracked(State()) && UpdatedBy(old(State()), snapshot, now, State(), lefts)
    {
      ghost var s := State();
      var unseen := targets.Keys;
      var absorbed, entered, lastSeen, log := AbsorbAll(snapshot, now, targets, entryTimes, lastSeenTimes, events);
      ghost var entered1, lastSeen1, log1 := entered, lastSeen, log;
      ghost var gone := entryTimes.Keys - Ids(snapshot);
      unseen := unseen - Ids(snapshot);
      AbsorbedLeavesUnseen(snapshot, now, targets, entryTimes, lastSeenTimes, events, absorbed, entered, lastSeen, log);
      entered, lastSeen, log, lefts := ForgetUnseen(unseen, entered, lastSeen, log, now, entryTimes, gone);
      UpdateConcludes(snapshot, now, s, absorbed, entered1, lastSeen1, log1, entered, lastSeen, log, lefts);
      hide *;
      targets, entryTimes, lastSeenTimes, events := absorbed, entered, lastSeen, log;
    }
  }

  /** The two loops together make the update's new state. */
  lemma UpdateConcludes(snapshot: seq<Person>, now: uint32, s: TrackerState,
                        targets: map<uint32, Person>, entered1: map<uint32, uint32>,
                        lastSeen1: map<uint32, uint32>, log1: seq<TrackerEvent>,
                        entered: map<uint32, uint32>, lastSeen: map<uint32, uint32>,
                        log: seq<TrackerEvent>, lefts: seq<TrackerEvent>)
    requires Tracked(s)
    requires AbsorbInv(snapshot, now, s.targets, s.entryTimes, s.lastSeenTimes, s.events, targets, entered1, lastSeen1, log1)
    requires entered == entered1 - (s.entryTimes.Keys - Ids(snapshot))
    requires lastSeen == lastSeen1 - (s.entryTimes.Keys - Ids(snapshot))
    requires log == log1 + lefts && LeftEventsFor(lefts, s.entryTimes.Keys - Ids(snapshot), s.entryTimes, now)
    ensures var r := TrackerState(targets, entered, lastSeen, log);
      Tracked(r) && UpdatedBy(s, snapshot, now, r, lefts)
  {
    AfterForgetting(snapshot, now, s.targets, s.entryTimes, s.lastSeenTimes, s.events, targets, entered1, lastSeen1, log1,
      entered, lastSeen);
  }

  /**
   * The snapshot loop's invariant after the prefix `seen`: the targets hold
   * each seen id's last attributes, new ids have entered now and are
   * reported, and every seen id was last seen now.
   */
  predicate AbsorbInv(seen: seq<Person>, now: uint32,
                      targets0: map<uint32, Person>, entered0: map<uint32, uint32>,
                      lastSeen0: map<uint32, uint32>, log0: seq<TrackerEvent>,
                      targets: map<uint32, Person>, entered: map<uint32, uint32>,
                      lastSeen: map<uint32, uint32>, log: seq<TrackerEvent>)
  {
    && targets == Absorbed(targets0, seen)
    && entered.Keys == entered0.Keys + Ids(seen) && lastSeen.Keys == lastSeen0.Keys + Ids(seen)
    && (forall id :: id in entered ==> entered[id] == (if id in entered0 then entered0[id] else now))
    && (forall id :: id in lastSeen ==> lastSeen[id] == (if id in Ids(seen) then now else lastSeen0[id]))
    && log == log0 + EnterEvents(seen, entered0.Keys)
  }

  lemma AbsorbStart(now: uint32, targets0: map<uint32, Person>, entered0: map<uint32, uint32>,
                    lastSeen0: map<uint32, uint32>, log0: seq<TrackerEvent>)
    ensures AbsorbInv([], now, targets0, entered0, lastSeen0, log0, targets0, entered0, lastSeen0, log0)
  {
    assert entered0.Keys + {} == entered0.Keys && lastSeen0.Keys + {} == lastSeen0.Keys;
    assert log0 + [] == log0;
  }

  /** One pass of the snapshot loop. */
  lemma AbsorbStep(seen: seq<Person>, p: Person, now: uint32,
                   targets0: map<uint32, Person>, entered0: map<uint32, uint32>,
                   lastSeen0: map<uint32, uint32>, log0: seq<TrackerEvent>,
                   targets: map<uint32, Person>, entered: map<uint32, uint32>,
                   lastSeen: map<uint32, uint32>, log: seq<TrackerEvent>)
    requires AbsorbInv(seen, now, targets0, entered0, lastSeen0, log0, targets, entered, lastSeen, log)
    ensures AbsorbInv(seen + [p], now, targets0, entered0, lastSeen0, log0,
      targets[p.id := p],
      if p.id in entered then entered else entered[p.id := now],
      lastSeen[p.id := now],
      if p.id in entered then log else log + [Entered(p.id)])
  {
    hide Ids, Absorbed, EnterEvents;
    IdsAppend(seen, p);
    AbsorbedAppend(targets0, seen, p);
    EnterEventsAppend(seen, p, entered0.Keys);
  }

  /**
   * After the snapshot loop, the unseen ids that still have an entry time are
   * exactly the ones entered before and missing from the snapshot, with
   * their old entry times.
   */
  lemma AbsorbedLeavesUnseen(snapshot: seq<Person>, now: uint32,
                             targets0: map<uint32, Person>, entered0: map<uint32, uint32>,
                             lastSeen0: map<uint32, uint32>, log0: seq<TrackerEvent>,
                             targets: map<uint32, Person>, entered: map<uint32, uint32>,
                             lastSeen: map<uint32, uint32>, log: seq<TrackerEvent>)
    requires entered0.Keys <= targets0.Keys
    requires AbsorbInv(snapshot, now, targets0, entered0, lastSeen0, log0, targets, entered, lastSeen, log)
    ensures ForgetsExactly(targets0.Keys - Ids(snapshot), entered0.Keys - Ids(snapshot), entered, entered0)
  {
  }

  /**
   * What the unseen loop needs: the ids to forget (`gone`) are the unseen ids
   * that have an entry time, and that time is still the one recorded before
   * the snapshot came in.
   */
  predicate ForgetsExactly(unseen: set<uint32>, gone: set<uint32>, entered0: map<uint32, uint32>, entries: map<uint32, uint32>)
  {
    && gone <= unseen && gone <= entries.Keys && gone <= entered0.Keys
    && (forall k :: k in unseen && k in entered0 ==> k in gone)
    && (forall k :: k in gone ==> entered0[k] == entries[k])
  }

  /** Once the unseen ids are forgotten, exactly the snapshot's ids have records. */
  lemma AfterForgetting(snapshot: seq<Person>, now: uint32,
                        targets0: map<uint32, Person>, entered0: map<uint32, uint32>,
                        lastSeen0: map<uint32, uint32>, log0: seq<TrackerEvent>,
                        targets: map<uint32, Person>, entered1: map<uint32, uint32>,
                        lastSeen1: map<uint32, uint32>, log: seq<TrackerEvent>,
                        entered: map<uint32, uint32>, lastSeen: map<uint32, uint32>)
    requires entered0.Keys == lastSeen0.Keys && entered0.Keys <= targets0.Keys
    requires AbsorbInv(snapshot, now, targets0, entered0, lastSeen0, log0, targets, entered1, lastSeen1, log)
    requires entered == entered1 - (entered0.Keys - Ids(snapshot))
    requires lastSeen == lastSeen1 - (entered0.Keys - Ids(snapshot))
    ensures entered.Keys == Ids(snapshot) && lastSeen.Keys == Ids(snapshot)
    ensures targets.Keys == targets0.Keys + Ids(snapshot)
    ensures forall id :: id in entered ==> entered[id] == (if id in entered0 then entered0[id] else now)
    ensures forall id :: id in lastSeen ==> lastSeen[id] == now
  {
    AbsorbedKeys(targets0, snapshot);
  }

  /** The snapshot loop on the tracker's maps and log. */
  method AbsorbAll(snapshot: seq<Person>, now: uint32,
                   targets0: map<uint32, Person>, entered0: map<uint32, uint32>,
                   lastSeen0: map<uint32, uint32>, log0: seq<TrackerEvent>)
      returns (targets: map<uint32, Person>, entered: map<uint32, uint32>,
               lastSeen: map<uint32, uint32>, log: seq<TrackerEvent>)
    ensures AbsorbInv(snapshot, now, targets0, entered0, lastSeen0, log0, targets, entered, lastSeen, log)
  {
    targets, entered, lastSeen, log := targets0, entered0, lastSeen0, log0;
    AbsorbStart(now, targets0, entered0, lastSeen0, log0);
    hide AbsorbInv;
    var i := 0;
    while i < |snapshot|
      invariant 0 <= i <= |snapshot|
      invariant AbsorbInv(snapshot[..i], now, targets0, entered0, lastSeen0, log0, targets, entered, lastSeen, log)
    {
      var target := snapshot[i];
      assert snapshot[..i + 1] == snapshot[..i] + [target];
      AbsorbStep(snapshot[..i], target, now, targets0, entered0, lastSeen0, log0, targets, entered, lastSeen, log);
      targets := targets[target.id := target];
      if target.id !in entered {
        entered := entered[target.id := now];
        log := log + [Entered(target.id)];
      }
      lastSeen := lastSeen[target.id := now];
      i := i + 1;
    }
    assert snapshot[..i] == snapshot;
  }

  /**
   * The body of the unseen loop on the tracker's maps and log: each unseen
   * id that has an entry time (exactly the ids in `gone`) is reported with
   * its dwell and removed from both maps.
   */
  method ForgetUnseen(unseen: set<uint32>, entered0: map<uint32, uint32>, lastSeen0: map<uint32, uint32>,
                      log0: seq<TrackerEvent>, now: uint32, ghost entries: map<uint32, uint32>, ghost gone: set<uint32>)
      returns (entered: map<uint32, uint32>, lastSeen: map<uint32, uint32>, log: seq<TrackerEvent>,
               ghost lefts: seq<TrackerEvent>)
    requires ForgetsExactly(unseen, gone, entered0, entries)
    ensures entered == entered0 - gone && lastSeen == lastSeen0 - gone
    ensures log == log0 + lefts && LeftEventsFor(lefts, gone, entries, now)
  {
    entered, lastSeen, log := entered0, lastSeen0, log0;
    var rest := unseen;
    lefts := [];
    UnseenStart(unseen, gone, entered0, lastSeen0, entries, now);
    hide *;
    while rest != {}
      invariant UnseenInv(unseen, gone, rest, entered0, entered, lastSeen0, lastSeen, lefts, entries, now)
      invariant log == log0 + lefts
      decreases rest
    {
      var id :| id in rest;
      entered, lastSeen, log, lefts := ForgetOne(id, entered, lastSeen, log, now, unseen, gone, rest, entered0, lastSeen0, log0, lefts, entries);
      rest := rest - {id};
    }
    UnseenDone(unseen, gone, entered0, entered, lastSeen0, lastSeen, lefts, entries, now);
  }

  /**
   * One turn of the unseen loop: an id with an entry time is reported as left
   * and erased from both time maps, which keeps the loop's invariant for the
   * ids still to visit.
   */
  method ForgetOne(id: uint32, entered: map<uint32, uint32>, lastSeen: map<uint32, uint32>, log: seq<TrackerEvent>,
                   now: uint32, ghost unseen: set<uint32>, ghost gone: set<uint32>, ghost rest: set<uint32>,
                   ghost entered0: map<uint32, uint32>, ghost lastSeen0: map<uint32, uint32>,
                   ghost log0: seq<TrackerEvent>, ghost lefts: seq<TrackerEvent>, ghost entries: map<uint32, uint32>)
      returns (entered': map<uint32, uint32>, lastSeen': map<uint32, uint32>, log': seq<TrackerEvent>,
               ghost lefts': seq<TrackerEvent>)
    requires UnseenInv(unseen, gone, rest, entered0, entered, lastSeen0, lastSeen, lefts, entries, now) && id in rest
    requires ForgetsExactly(unseen, gone, entered0, entries) && log == log0 + lefts
    ensures UnseenInv(unseen, gone, rest - {id}, entered0, entered', lastSeen0, lastSeen', lefts', entries, now)
    ensures log' == log0 + lefts'
  {
    UnseenStep(unseen, gone, rest, entered0, entered, lastSeen0, lastSeen, lefts, entries, now, id);
    hide *;
    entered', lastSeen', log', lefts' := entered, lastSeen, log, lefts;
    if id in entered {
      var dwell := Dwell(entered[id], now);
      log' := log + [Left(id, dwell)];
      lefts' := lefts + [Left(id, dwell)];
      entered' := entered - {id};
      lastSeen' := lastSeen - {id};
    }
  }

  /**
   * The unseen loop's invariant: the ids handled so far that had an entry
   * time have lost their records and have been reported.
   */
  predicate UnseenInv(unseen: set<uint32>, gone: set<uint32>, rest: set<uint32>,
                      entries0: map<uint32, uint32>, entered: map<uint32, uint32>,
                      lastSeen0: map<uint32, uint32>, lastSeen: map<uint32, uint32>,
                      lefts: seq<TrackerEvent>, entries: map<uint32, uint32>, now: uint32)
  {
    && rest <= unseen
    && entered == entries0 - (gone - rest) && lastSeen == lastSeen0 - (gone - rest)
    && LeftEventsFor(lefts, gone - rest, entries, now)
  }

  lemma UnseenStart(unseen: set<uint32>, gone: set<uint32>, entries0: map<uint32, uint32>,
                    lastSeen0: map<uint32, uint32>, entries: map<uint32, uint32>, now: uint32)
    requires gone <= unseen && gone <= entries.Keys
    ensures UnseenInv(unseen, gone, unseen, entries0, entries0, lastSeen0, lastSeen0, [], entries, now)
  {
    assert gone - unseen == {};
    assert entries0 - {} == entries0 && lastSeen0 - {} == lastSeen0;
  }

  /** One pass of the unseen loop: an id that had an entry time is reported and forgotten. */
  lemma UnseenStep(unseen: set<uint32>, gone: set<uint32>, rest: set<uint32>,
                   entries0: map<uint32, uint32>, entered: map<uint32, uint32>,
                   lastSeen0: map<uint32, uint32>, lastSeen: map<uint32, uint32>,
                   lefts: seq<TrackerEvent>, entries: map<uint32, uint32>, now: uint32, id: uint32)
    requires UnseenInv(unseen, gone, rest, entries0, entered, lastSeen0, lastSeen, lefts, entries, now) && id in rest
    requires ForgetsExactly(unseen, gone, entries0, entries)
    ensures id in entered <==> id in gone
    ensures id in gone ==> entered[id] == entries[id] && UnseenInv(unseen, gone, rest - {id}, entries0, entered - {id},
      lastSeen0, lastSeen - {id}, lefts + [Left(id, Dwell(entries[id], now))], entries, now)
    ensures id !in gone ==> UnseenInv(unseen, gone, rest - {id}, entries0, entered, lastSeen0, lastSeen, lefts, entries, now)
  {
    if id in gone {
      assert gone - (rest - {id}) == (gone - rest) + {id};
      LeftEventsExtend(lefts, gone - rest, entries, now, id);
    } else {
      assert gone - (rest - {id}) == gone - rest;
    }
  }

  lemma UnseenDone(unseen: set<uint32>, gone: set<uint32>,
                   entries0: map<uint32, uint32>, entered: map<uint32, uint32>,
                   lastSeen0: map<uint32, uint32>, lastSeen: map<uint32, uint32>,
                   lefts: seq<TrackerEvent>, entries: map<uint32, uint32>, now: uint32)
    requires UnseenInv(unseen, gone, {}, entries0, entered, lastSeen0, lastSeen, lefts, entries, now)
    ensures entered == entries0 - gone && lastSeen == lastSeen0 - gone && LeftEventsFor(lefts, gone, entries, now)
  {
    assert gone - {} == gone;
  }

  /**
   * A clock reading no earlier than every recorded time: the entry and
   * last-seen stamps are in the past and each entry precedes its last sighting.
   */
  predicate StampsBefore(s: TrackerState, now: uint32)
  {
    forall id :: id in s.entryTimes && id in s.lastSeenTimes ==>
      s.entryTimes[id] <= s.lastSeenTimes[id] <= now
  }

  /**
   * With a clock that never runs backwards, a target's entry time is never
   * after its last-seen time: this holds after every update.
   */
  lemma EntryBeforeLastSeen(s: TrackerState, snapshot: seq<Person>, now: uint32, later: uint32,
                            r: TrackerState, lefts: seq<TrackerEvent>)
    requires Tracked(s) && StampsBefore(s, now) && now <= later
    requires UpdatedBy(s, snapshot, now, r, lefts)
    ensures StampsBefore(r, later)
  {
  }

  /**
   * The new events are the enter events, then the left events: an enter
   * fires exactly for each snapshot id without an entry time, once, in the
   * order the ids first occur in the snapshot.
   */
  lemma UpdateEnterEvents(s: TrackerState, snapshot: seq<Person>, now: uint32, r: TrackerState, lefts: seq<TrackerEvent>)
    requires UpdatedBy(s, snapshot, now, r, lefts)
    ensures var enters := EnterEvents(snapshot, s.entryTimes.Keys);
      && r.events == s.events + enters + lefts
      && (forall e :: e in enters ==> e.Entered?)
      && (forall id :: Entered(id) in enters <==> id in Ids(snapshot) && id !in s.entryTimes)
      && (forall i, j :: 0 <= i < j < |enters| ==> enters[i].id != enters[j].id)
      && InFirstOccurrenceOrder(enters, snapshot)
  {
    var enters := EnterEvents(snapshot, s.entryTimes.Keys);
    EnterEventsNew(snapshot, s.entryTimes.Keys);
    EnterEventsInFirstOccurrenceOrder(snapshot, s.entryTimes.Keys);
    forall id ensures Entered(id) in enters <==> id in Ids(snapshot) && id !in s.entryTimes {
      EnterEventsExact(snapshot, s.entryTimes.Keys, id);
    }
  }

  /**
   * A left event fires exactly for each id that had entered and is missing
   * from the snapshot, with its dwell in whole seconds, and its records are gone.
   */
  lemma UpdateLeftEvents(s: TrackerState, snapshot: seq<Person>, now: uint32, r: TrackerState, lefts: seq<TrackerEvent>)
    requires UpdatedBy(s, snapshot, now, r, lefts)
    ensures forall e :: e in lefts ==> e.Left? && e.id in s.entryTimes && e.id !in Ids(snapshot)
    ensures forall id :: id in s.entryTimes && id !in Ids(snapshot) ==>
      Left(id, Dwell(s.entryTimes[id], now)) in lefts && id !in r.entryTimes && id !in r.lastSeenTimes
    ensures |lefts| == |s.entryTimes.Keys - Ids(snapshot)|
  {
    LeftEventsCoverGone(lefts, s.entryTimes.Keys - Ids(snapshot), s.entryTimes, now);
  }

  /** None of the new events of the update names an id that is neither new nor gone. */
  lemma NoEventFor(s: TrackerState, snapshot: seq<Person>, now: uint32, r: TrackerState,
                   lefts: seq<TrackerEvent>, id: uint32)
    requires UpdatedBy(s, snapshot, now, r, lefts)
    requires !(id in Ids(snapshot) && id !in s.entryTimes) && !(id in s.entryTimes && id !in Ids(snapshot))
    ensures forall e :: e in r.events[|s.events|..] ==> e.id != id
  {
    hide Ids, Absorbed, EnterEvents;
    var known := s.entryTimes.Keys;
    var enters := EnterEvents(snapshot, known);
    var gone := known - Ids(snapshot);
    assert r.events == s.events + (enters + lefts);
    assert r.events[|s.events|..] == enters + lefts;
    assert LeftEventsFor(lefts, gone, s.entryTimes, now);
    hide UpdatedBy;
    EnterEventsNew(snapshot, known);
    forall e | e in enters + lefts ensures e.id != id {
      if e in lefts {
        var i :| 0 <= i < |lefts| && lefts[i] == e;
        assert lefts[i].id in gone;
      }
    }
  }

  /**
   * An id present before and after the update gets no event, keeps its
   * entry time and was last seen now.
   */
  lemma UpdateKeepsPresent(s: TrackerState, snapshot: seq<Person>, now: uint32, r: TrackerState,
                           lefts: seq<TrackerEvent>, id: uint32)
    requires UpdatedBy(s, snapshot, now, r, lefts) && id in s.entryTimes && id in Ids(snapshot)
    ensures r.entryTimes[id] == s.entryTimes[id] && r.lastSeenTimes[id] == now
    ensures forall e :: e in r.events[|s.events|..] ==> e.id != id
  {
    NoEventFor(s, snapshot, now, r, lefts, id);
  }

  /**
   * `targets_` only gains ids; an id it holds without an entry time and
   * missing from the snapshot keeps its attributes and gets no event.
   */
  lemma UpdateKeepsTargets(s: TrackerState, snapshot: seq<Person>, now: uint32, r: TrackerState,
                           lefts: seq<TrackerEvent>, id: uint32)
    requires UpdatedBy(s, snapshot, now, r, lefts)
    ensures r.targets.Keys == s.targets.Keys + Ids(snapshot)
    ensures id in s.targets && id !in s.entryTimes && id !in Ids(snapshot) ==>
      r.targets[id] == s.targets[id] && forall e :: e in r.events[|s.events|..] ==> e.id != id
  {
    AbsorbedKeepsLast(s.targets, snapshot, id);
    if id in s.targets && id !in s.entryTimes && id !in Ids(snapshot) {
      NoEventFor(s, snapshot, now, r, lefts, id);
    }
  }
}
