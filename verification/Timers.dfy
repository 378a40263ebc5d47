/**
 Timers of the event loop (ae.c): an unsorted list with new timers at the head, deletion by marking,
 and a pass that fires what is due and unlinks what is marked.

 The clock, and what callbacks do (create and delete timers, but not run the loop), are arbitrary. The
 list is a sequence; a timer keeps in `serial` the id it was created with. `log` is what happened.
 */
module Timers {
  import opened Basics

  const AE_NOMORE: int := -1
  const AE_DELETED_EVENT_ID: int := -1

  datatype TimeEvent = TimeEvent(serial: nat, id: int, whenSec: int, whenMs: int)

  datatype Entry = Created(s: nat) | Fired(s: nat) | Deleted(s: nat) | Unlinked(s: nat)

  // ------------------------------------------------------------------ time

  /** Division and remainder of C: towards zero. */
  function CDiv(a: int, b: int): int
    requires b > 0
  {
    if a >= 0 then a / b else -((-a) / b)
  }

  function CMod(a: int, b: int): int
    requires b > 0
  {
    a - b * CDiv(a, b)
  }

  function AddMillisecondsToNow(ms: int, curSec: int, curMs: int): (int, int) {
    var sec, rest := curSec + CDiv(ms, 1000), curMs + CMod(ms, 1000);
    if rest >= 1000 then (sec + 1, rest - 1000) else (sec, rest)
  }

  function Deadline(t: TimeEvent): int {
    t.whenSec * 1000 + t.whenMs
  }

  /** The deadline is `ms` from now; its milliseconds are normal, or -1, unless a negative delay borrows. */
  lemma AddedTime(ms: int, curSec: int, curMs: int)
    requires 0 <= curMs < 1000
    ensures var (sec, rest) := AddMillisecondsToNow(ms, curSec, curMs);
      && sec * 1000 + rest == curSec * 1000 + curMs + ms
      && (0 <= rest < 1000 <==> ms >= 0 || curMs + CMod(ms, 1000) >= 0)
      && rest < 1000 && (-1 <= rest <==> ms >= 0 || curMs + CMod(ms, 1000) >= -1)
  {
    if ms < 0 { assert (-ms) == 1000 * ((-ms) / 1000) + (-ms) % 1000; }
  }

  predicate Earlier(a: TimeEvent, b: TimeEvent) {
    a.whenSec < b.whenSec || (a.whenSec == b.whenSec && a.whenMs < b.whenMs)
  }

  ghost predicate Nearest(n: TimeEvent, timers: seq<TimeEvent>) {
    forall t :: t in timers ==> !Earlier(t, n)
  }

  /** With normal milliseconds that is an earlier deadline. */
  lemma EarlierIff(a: TimeEvent, b: TimeEvent)
    requires 0 <= a.whenMs < 1000 && 0 <= b.whenMs < 1000
    ensures Earlier(a, b) <==> Deadline(a) < Deadline(b)
  {
  }

  /** The first timer that no other is earlier than. */
  method SearchNearestTimer(timers: seq<TimeEvent>) returns (r: Option<TimeEvent>)
    ensures r.None? <==> timers == []
    ensures r.Some? ==> r.value in timers && Nearest(r.value, timers)
  {
    r := None;
    var i := 0;
    while i < |timers|
      invariant i <= |timers| && (r.None? <==> i == 0)
      invariant r.Some? ==> r.value in timers && forall k :: 0 <= k < i ==> !Earlier(timers[k], r.value)
    {
      if r.None? || Earlier(timers[i], r.value) { r := Some(timers[i]); }
      i := i + 1;
    }
  }

  /** Milliseconds are normal, or a borrow of one is left over. */
  predicate Orderly(t: TimeEvent) {
    -1 <= t.whenMs < 1000
  }

  /** How long aeProcessEvents lets the poll wait, in milliseconds. */
  method SleepTime(timers: seq<TimeEvent>, nowSec: int, nowMs: int) returns (ms: Option<nat>)
    ensures ms.None? <==> timers == []
    ensures ms.Some? ==> exists t :: t in timers && Nearest(t, timers) && ms.value == Positive(Deadline(t) - (nowSec * 1000 + nowMs))
    ensures (forall t :: t in timers ==> Orderly(t)) && ms.Some? ==>
      (forall t :: t in timers ==> ms.value <= Positive(Deadline(t) - (nowSec * 1000 + nowMs)))
  {
    var shortest := SearchNearestTimer(timers);
    if shortest.None? { return None; }
    var wait := (shortest.value.whenSec - nowSec) * 1000 + shortest.value.whenMs - nowMs;
    var sec, usec := 0, 0;
    if wait > 0 { sec, usec := wait / 1000, wait % 1000 * 1000; }
    ms := Some(sec * 1000 + usec / 1000);
    assert ms.value == Positive(Deadline(shortest.value) - (nowSec * 1000 + nowMs));
  }

  function Positive(x: int): nat {
    if x > 0 then x else 0
  }

  /** Beside some normal timer, the search for the nearest prefers that one although its deadline is later. */
  ghost predicate CanBeHidden(t: TimeEvent) {
    exists u: TimeEvent :: 0 <= u.whenMs < 1000 && Earlier(u, t) && Deadline(t) < Deadline(u)
  }

  /** Exactly the timers below -1 milliseconds can be hidden, and so overslept. */
  lemma HiddenIff(t: TimeEvent)
    requires t.whenMs < 1000
    ensures CanBeHidden(t) <==> !Orderly(t)
  {
    if !Orderly(t) {
      var u := TimeEvent(0, 0, t.whenSec - 1, 999);
      assert 0 <= u.whenMs < 1000 && Earlier(u, t) && Deadline(t) < Deadline(u);
    }
  }

  /** A new timer can be overslept exactly when its delay is negative and borrows more than one millisecond. */
  lemma OversleptIff(ms: int, curSec: int, curMs: int, id: nat)
    requires 0 <= curMs < 1000
    ensures var (sec, rest) := AddMillisecondsToNow(ms, curSec, curMs);
      CanBeHidden(TimeEvent(id, id, sec, rest)) <==> ms < 0 && curMs + CMod(ms, 1000) < -1
  {
    AddedTime(ms, curSec, curMs);
    var (sec, rest) := AddMillisecondsToNow(ms, curSec, curMs);
    HiddenIff(TimeEvent(id, id, sec, rest));
  }

  /** Such a pair: a delay of -2 at a full second, after a delay of 999 a second before. */
  lemma Overslept(s: int)
    ensures AddMillisecondsToNow(-2, s, 0) == (s, -2) && AddMillisecondsToNow(999, s - 1, 0) == (s - 1, 999)
    ensures var t, u := TimeEvent(1, 1, s, -2), TimeEvent(0, 0, s - 1, 999);
      !Nearest(t, [t, u]) && Nearest(u, [t, u]) && Deadline(t) < Deadline(u)
  {
    var t, u := TimeEvent(1, 1, s, -2), TimeEvent(0, 0, s - 1, 999);
    assert u in [t, u] && Earlier(u, t);
  }

  // ------------------------------------------------------- list and history

  /** The serials strictly decrease from the head, and a timer that is not deleted has its serial as id. */
  ghost predicate ListOK(timers: seq<TimeEvent>, nextId: nat) {
    && (forall i :: 0 <= i < |timers| ==> timers[i].serial < nextId)
    && (forall i, j :: 0 <= i < j < |timers| ==> timers[i].serial > timers[j].serial)
    && (forall i :: 0 <= i < |timers| ==> timers[i].id == timers[i].serial || timers[i].id == AE_DELETED_EVENT_ID)
  }

  ghost predicate Linked(timers: seq<TimeEvent>, s: nat) {
    exists i :: 0 <= i < |timers| && timers[i].serial == s
  }

  /** How often timer `s` was unlinked. */
  function Unlinks(log: seq<Entry>, s: nat): nat {
    multiset(log)[Unlinked(s)]
  }

  /** Nothing fires after it was deleted. */
  ghost predicate NeverAfter(log: seq<Entry>) {
    forall i, j :: 0 <= i < j < |log| && log[i].Deleted? && log[j].Fired? ==> log[i].s != log[j].s
  }

  /** A timer is unlinked, and so finalized, exactly once after it was deleted, and is linked until then. */
  ghost predicate LogOK(log: seq<Entry>, timers: seq<TimeEvent>, nextId: nat) {
    && NeverAfter(log)
    && (forall s: nat :: Unlinks(log, s) == if s < nextId && !Linked(timers, s) then 1 else 0)
    && (forall i :: 0 <= i < |timers| ==> (timers[i].id == AE_DELETED_EVENT_ID <==> Deleted(timers[i].serial) in log))
    && (forall s: nat :: Unlinked(s) in log ==> Deleted(s) in log)
    && (forall e :: e in log ==> e.s < nextId)
  }

  ghost predicate TimersOK(timers: seq<TimeEvent>, nextId: nat, log: seq<Entry>) {
    ListOK(timers, nextId) && LogOK(log, timers, nextId)
  }

  lemma CreateOK(timers: seq<TimeEvent>, nextId: nat, log: seq<Entry>, t: TimeEvent)
    requires TimersOK(timers, nextId, log) && t.serial == t.id == nextId
    ensures TimersOK([t] + timers, nextId + 1, log + [Created(nextId)])
  {
    var timers2, log2 := [t] + timers, log + [Created(nextId)];
    forall s: nat
      ensures Unlinks(log2, s) == if s < nextId + 1 && !Linked(timers2, s) then 1 else 0
    {
      LinkedCons(t, timers, s);
      assert Unlinks(log2, s) == Unlinks(log, s);
    }
    assert Deleted(nextId) !in log;
  }

  lemma LinkedCons(t: TimeEvent, timers: seq<TimeEvent>, s: nat)
    ensures Linked([t] + timers, s) <==> t.serial == s || Linked(timers, s)
  {
    var r := [t] + timers;
    if Linked(timers, s) {
      var i :| 0 <= i < |timers| && timers[i].serial == s;
      assert r[i + 1].serial == s;
    }
    if t.serial == s { assert r[0].serial == s; }
  }

  /** Marking or rescheduling the timer at `p` leaves the list as it is. */
  lemma SameLinks(timers: seq<TimeEvent>, p: nat, t: TimeEvent, s: nat)
    requires p < |timers| && t.serial == timers[p].serial
    ensures Linked(timers[p := t], s) <==> Linked(timers, s)
  {
    if Linked(timers, s) {
      var i :| 0 <= i < |timers| && timers[i].serial == s;
      assert timers[p := t][i].serial == s;
    }
    if Linked(timers[p := t], s) {
      var i :| 0 <= i < |timers| && timers[p := t][i].serial == s;
      assert timers[i].serial == s;
    }
  }

  lemma DeleteOK(timers: seq<TimeEvent>, nextId: nat, log: seq<Entry>, p: nat)
    requires TimersOK(timers, nextId, log) && p < |timers|
    ensures TimersOK(timers[p := timers[p].(id := AE_DELETED_EVENT_ID)], nextId, log + [Deleted(timers[p].serial)])
  {
    var timers2, log2 := timers[p := timers[p].(id := AE_DELETED_EVENT_ID)], log + [Deleted(timers[p].serial)];
    forall s: nat
      ensures Unlinks(log2, s) == if s < nextId && !Linked(timers2, s) then 1 else 0
    {
      SameLinks(timers, p, timers2[p], s);
      assert Unlinks(log2, s) == Unlinks(log, s);
    }
  }

  lemma FireOK(timers: seq<TimeEvent>, nextId: nat, log: seq<Entry>, p: nat)
    requires TimersOK(timers, nextId, log) && p < |timers| && timers[p].id != AE_DELETED_EVENT_ID
    ensures TimersOK(timers, nextId, log + [Fired(timers[p].serial)])
  {
    var log2 := log + [Fired(timers[p].serial)];
    assert forall s: nat :: Unlinks(log2, s) == Unlinks(log, s);
    assert Deleted(timers[p].serial) !in log;
  }

  lemma RescheduleOK(timers: seq<TimeEvent>, nextId: nat, log: seq<Entry>, p: nat, sec: int, ms: int)
    requires TimersOK(timers, nextId, log) && p < |timers|
    ensures TimersOK(timers[p := timers[p].(whenSec := sec, whenMs := ms)], nextId, log)
  {
    var timers2 := timers[p := timers[p].(whenSec := sec, whenMs := ms)];
    forall s: nat
      ensures Linked(timers2, s) <==> Linked(timers, s)
    {
      SameLinks(timers, p, timers2[p], s);
    }
  }

  lemma UnlinkOK(timers: seq<TimeEvent>, nextId: nat, log: seq<Entry>, p: nat)
    requires TimersOK(timers, nextId, log) && p < |timers| && timers[p].id == AE_DELETED_EVENT_ID
    ensures TimersOK(timers[..p] + timers[p + 1..], nextId, log + [Unlinked(timers[p].serial)])
  {
    var timers2, log2 := timers[..p] + timers[p + 1..], log + [Unlinked(timers[p].serial)];
    assert forall i :: 0 <= i < |timers2| ==> timers2[i] == timers[if i < p then i else i + 1];
    forall s: nat
      ensures Unlinks(log2, s) == if s < nextId && !Linked(timers2, s) then 1 else 0
    {
      LinkedWithout(timers, nextId, p, s);
      assert Unlinks(log2, s) == Unlinks(log, s) + if s == timers[p].serial then 1 else 0;
    }
  }

  lemma LinkedWithout(timers: seq<TimeEvent>, nextId: nat, p: nat, s: nat)
    requires ListOK(timers, nextId) && p < |timers|
    ensures Linked(timers[..p] + timers[p + 1..], s) <==> Linked(timers, s) && s != timers[p].serial
  {
    var timers2 := timers[..p] + timers[p + 1..];
    if Linked(timers, s) && s != timers[p].serial {
      var i :| 0 <= i < |timers| && timers[i].serial == s;
      assert timers2[if i < p then i else i - 1].serial == s;
    }
    if Linked(timers2, s) {
      var i :| 0 <= i < |timers2| && timers2[i].serial == s;
      assert timers[if i < p then i else i + 1].serial == s;
    }
  }

  /** The timers fired, in order. */
  function FiredIn(log: seq<Entry>): seq<nat> {
    if log == [] then []
    else FiredIn(log[..|log| - 1]) + if log[|log| - 1].Fired? then [log[|log| - 1].s] else []
  }

  lemma FiredSnoc(log: seq<Entry>, e: Entry)
    ensures FiredIn(log + [e]) == FiredIn(log) + if e.Fired? then [e.s] else []
  {
    assert (log + [e])[..|log|] == log;
  }

  /** The same timer, with the same deadline, deleted or not. */
  predicate Same(a: TimeEvent, b: TimeEvent) {
    a.serial == b.serial && a.whenSec == b.whenSec && a.whenMs == b.whenMs
  }

  /** Timers are only added, at the head: the others keep their places, counted from the tail, and deadlines. */
  ghost predicate Grown(timers: seq<TimeEvent>, timers2: seq<TimeEvent>) {
    |timers| <= |timers2| && forall i :: 0 <= i < |timers| ==> Same(timers2[|timers2| - |timers| + i], timers[i])
  }

  /** Timer `t` is in the list. */
  ghost predicate Has(timers: seq<TimeEvent>, t: TimeEvent) {
    exists i :: 0 <= i < |timers| && Same(timers[i], t)
  }

  /** Every timer but `s` is still there, with its deadline. */
  ghost predicate KeepsOthers(timers: seq<TimeEvent>, timers2: seq<TimeEvent>, s: nat) {
    forall t: TimeEvent :: Has(timers, t) && t.serial != s ==> Has(timers2, t)
  }

  lemma GrownHas(timers: seq<TimeEvent>, timers2: seq<TimeEvent>, t: TimeEvent)
    requires Grown(timers, timers2) && Has(timers, t)
    ensures Has(timers2, t)
  {
    var i :| 0 <= i < |timers| && Same(timers[i], t);
    assert Same(timers2[|timers2| - |timers| + i], t);
  }

  /** A list that loses or changes timer `p`, and grows before or after that. */
  lemma ChangedKeeps(timers: seq<TimeEvent>, p: nat, mid: seq<TimeEvent>, timers2: seq<TimeEvent>)
    requires p < |timers| && Grown(mid, timers2)
    requires forall i :: 0 <= i < |timers| && timers[i].serial != timers[p].serial ==> Has(mid, timers[i])
    ensures KeepsOthers(timers, timers2, timers[p].serial)
  {
    forall t: TimeEvent | Has(timers, t) && t.serial != timers[p].serial
      ensures Has(timers2, t)
    {
      var i :| 0 <= i < |timers| && Same(timers[i], t);
      assert Has(mid, timers[i]);
      var j :| 0 <= j < |mid| && Same(mid[j], timers[i]);
      assert Same(mid[j], t);
      GrownHas(mid, timers2, t);
    }
  }

  class EventLoop {
    var timers: seq<TimeEvent>
    var nextId: nat
    var lastTime: int
    ghost var log: seq<Entry>

    constructor (now: int)
      ensures Valid() && timers == [] && log == []
    {
      timers, nextId, lastTime, log := [], 0, now, [];
    }

    ghost predicate Valid()
      reads this
    {
      TimersOK(timers, nextId, log)
    }

    /** A timer `ms` milliseconds from now, at the head of the list. */
    method CreateTimeEvent(ms: int, curSec: int, curMs: int) returns (id: nat)
      requires Valid()
      modifies this`timers, this`nextId, this`log
      ensures Valid() && id == old(nextId) && nextId == id + 1 && log == old(log) + [Created(id)]
      ensures var (sec, rest) := AddMillisecondsToNow(ms, curSec, curMs);
        timers == [TimeEvent(id, id, sec, rest)] + old(timers)
    {
      hide TimersOK;
      id := nextId;
      var (sec, rest) := AddMillisecondsToNow(ms, curSec, curMs);
      CreateOK(timers, nextId, log, TimeEvent(id, id, sec, rest));
      nextId := nextId + 1;
      timers := [TimeEvent(id, id, sec, rest)] + timers;
      log := log + [Created(id)];
    }

    /** Marks the first timer with this id, if there is one. */
    method DeleteTimeEvent(id: int) returns (ok: bool)
      requires Valid()
      modifies this`timers, this`log
      ensures Valid() && |timers| == |old(timers)| && (ok <==> exists i :: 0 <= i < |timers| && old(timers)[i].id == id)
      ensures forall i :: 0 <= i < |timers| ==> timers[i] == old(timers[i]).(id := timers[i].id)
      ensures forall i :: 0 <= i < |timers| && old(timers)[i].id != id ==> timers[i].id == old(timers)[i].id
      ensures ok && id != AE_DELETED_EVENT_ID ==> forall i :: 0 <= i < |timers| ==> timers[i].id != id
      ensures if ok then exists e :: log == old(log) + [Deleted(e)] else log == old(log)
    {
      var i := 0;
      while i < |timers|
        invariant i <= |timers| && timers == old(timers) && log == old(log)
        invariant forall k :: 0 <= k < i ==> timers[k].id != id
      {
        if timers[i].id == id {
          DeleteOK(timers, nextId, log, i);
          log := log + [Deleted(timers[i].serial)];
          timers := timers[i := timers[i].(id := AE_DELETED_EVENT_ID)];
          return true;
        }
        i := i + 1;
      }
      ok := false;
    }

    /** What a callback may do: create and delete timers, in any order and number. */
    method Callback()
      requires Valid()
      modifies this`timers, this`nextId, this`log
      ensures Valid() && nextId >= old(nextId) && Grown(old(timers), timers) && old(log) <= log
      ensures FiredIn(log) == FiredIn(old(log))
    {
      hide TimersOK;
      var n: int := *;
      while n > 0
        invariant Valid() && nextId >= old(nextId) && Grown(old(timers), timers) && old(log) <= log
        invariant FiredIn(log) == FiredIn(old(log))
      {
        var create: bool, arg: int, sec: int, ms: int := *, *, *, *;
        ghost var before := log;
        if create {
          var _ := CreateTimeEvent(arg, sec, ms);
        } else {
          var _ := DeleteTimeEvent(arg);
        }
        if log != before { FiredSnoc(before, log[|log| - 1]); }
        n := n - 1;
      }
    }

    /** After the clock went back, everything is due, at any time after the epoch. */
    method ForceAll()
      requires Valid()
      modifies this`timers
      ensures Valid() && |timers| == |old(timers)|
      ensures forall i :: 0 <= i < |timers| ==> timers[i] == old(timers[i]).(whenSec := 0)
      ensures forall i, nowSec, nowMs :: 0 <= i < |timers| && nowSec > 0 ==> Due(timers[i], nowSec, nowMs)
    {
      hide TimersOK;
      for i := 0 to |timers|
        invariant Valid() && |timers| == |old(timers)|
        invariant forall k :: 0 <= k < i ==> timers[k] == old(timers[k]).(whenSec := 0)
        invariant forall k :: i <= k < |timers| ==> timers[k] == old(timers[k])
      {
        RescheduleOK(timers, nextId, log, i, 0, timers[i].whenMs);
        timers := timers[i := timers[i].(whenSec := 0)];
      }
    }

    /** Fires the timer `k` places from the tail, and reschedules or deletes it, as its callback returns. */
    method Fire(k: nat, turn: Turn)
      requires Valid() && 0 < k <= |timers| && timers[|timers| - k].id != AE_DELETED_EVENT_ID
      modifies this`timers, this`nextId, this`log
      ensures Valid() && nextId >= old(nextId) && old(log) <= log
      ensures Grown(old(timers[|timers| - k + 1..]), timers) && KeepsOthers(old(timers), timers, old(timers[|timers| - k].serial))
      ensures FiredIn(log) == FiredIn(old(log)) + [old(timers[|timers| - k].serial)]
      ensures turn.retval != AE_NOMORE ==> Has(timers, Again(old(timers[|timers| - k].serial), turn))
      ensures turn.retval == AE_NOMORE ==> Deleted(old(timers[|timers| - k].serial)) in log
    {
      hide TimersOK, Grown, KeepsOthers, Has, Same, FiredIn, AddMillisecondsToNow;
      var p := |timers| - k;
      ghost var before := timers;
      FireOK(timers, nextId, log, p);
      FiredSnoc(log, Fired(timers[p].serial));
      log := log + [Fired(timers[p].serial)];
      Callback();
      GrownAt(before, timers, p);
      GrownSized(before, timers);
      SameSerial(timers[|timers| - k], before[p]);
      p := |timers| - k;
      ghost var mid := timers;
      if turn.retval != AE_NOMORE {
        var (whenSec, whenMs) := AddMillisecondsToNow(turn.retval, turn.after.0, turn.after.1);
        RescheduleOK(timers, nextId, log, p, whenSec, whenMs);
        timers := timers[p := timers[p].(whenSec := whenSec, whenMs := whenMs)];
        HasAgain(timers, p, before[|before| - k], turn);
      } else {
        DeleteOK(timers, nextId, log, p);
        FiredSnoc(log, Deleted(timers[p].serial));
        log := log + [Deleted(timers[p].serial)];
        timers := timers[p := timers[p].(id := AE_DELETED_EVENT_ID)];
      }
      FiredKeeps(before, |before| - k, mid, p, timers);
    }

    /** Unlinks the timer `k` places from the tail, and finalizes it. */
    method Unlink(k: nat)
      requires Valid() && 0 < k <= |timers| && timers[|timers| - k].id == AE_DELETED_EVENT_ID
      modifies this`timers, this`nextId, this`log
      ensures Valid() && nextId >= old(nextId) && old(log) <= log && FiredIn(log) == FiredIn(old(log))
      ensures Grown(old(timers[..|timers| - k] + timers[|timers| - k + 1..]), timers)
      ensures KeepsOthers(old(timers), timers, old(timers[|timers| - k].serial))
      ensures Unlinked(old(timers[|timers| - k].serial)) in log
    {
      hide TimersOK;
      var p := |timers| - k;
      UnlinkOK(timers, nextId, log, p);
      FiredSnoc(log, Unlinked(timers[p].serial));
      log := log + [Unlinked(timers[p].serial)];
      ghost var before := timers;
      timers := timers[..p] + timers[p + 1..];
      WithoutHas(before, p);
      Callback();
      ChangedKeeps(before, p, before[..p] + before[p + 1..], timers);
    }

    /**
     One timer of the pass, `k` places from the tail; `rest` is the list when the pass began. A deleted
     one is unlinked; another fires exactly when it is due.
     */
    method Visit(k: nat, maxId: int, turn: Turn, ghost rest: seq<TimeEvent>) returns (fire: bool)
      requires Valid() && 0 < k <= |rest| && Grown(rest[|rest| - k..], timers)
      modifies this`timers, this`nextId, this`log
      ensures Valid() && Grown(rest[|rest| - k + 1..], timers) && old(log) <= log
      ensures KeepsOthers(old(timers), timers, rest[|rest| - k].serial)
      ensures FiredIn(log) == FiredIn(old(log)) + if fire then [rest[|rest| - k].serial] else []
      ensures Deleted(rest[|rest| - k].serial) in old(log) ==> Unlinked(rest[|rest| - k].serial) in log
      ensures var te := rest[|rest| - k];
        && (fire <==> Deleted(te.serial) !in old(log) && te.serial <= maxId && Due(te, turn.now.0, turn.now.1))
        && (fire && turn.retval != AE_NOMORE ==> Has(timers, Again(te.serial, turn)))
        && (fire && turn.retval == AE_NOMORE ==> Deleted(te.serial) in log)
    {
      hide TimersOK, FiredIn, KeepsOthers, Has;
      GrownNext(rest, timers, k);
      ghost var before := timers;
      var p := |timers| - k;
      var te := timers[p];
      assert Same(te, rest[|rest| - k..][0]);
      MarkedInLog(timers, nextId, log, p);
      hide Grown;
      fire := false;
      if te.id == AE_DELETED_EVENT_ID {
        Unlink(k);
        GrownTwice(rest[|rest| - k + 1..], before[..p] + before[p + 1..], timers);
      } else {
        if te.id <= maxId && Due(te, turn.now.0, turn.now.1) {
          Fire(k, turn);
          GrownTwice(rest[|rest| - k + 1..], before[p + 1..], timers);
          fire := true;
        } else {
          KeepsAll(timers, te.serial);
        }
      }
    }

    /**
     One pass over the timers, of which the `i`-th is looked at in `turns(i)`. It fires each timer at most
     once, from the newest to the oldest, and none that was created during the pass: exactly those that
     are due at their turn and have not been deleted. A timer that fired has the deadline its callback
     asked for, or is deleted. Every timer that was deleted before is unlinked.
     */
    method ProcessTimeEvents(now: int, turns: nat -> Turn) returns (processed: nat, ghost fired: seq<nat>)
      requires Valid()
      modifies this
      ensures Valid() && old(log) <= log && FiredIn(log) == FiredIn(old(log)) + fired && |fired| == processed
      ensures forall i, j :: 0 <= i < j < |fired| ==> fired[i] > fired[j]
      ensures forall i :: 0 <= i < |fired| ==> Linked(old(timers), fired[i])
      ensures forall i :: 0 <= i < |old(timers)| && old(timers[i]).id == AE_DELETED_EVENT_ID ==>
        Unlinked(old(timers[i]).serial) in log
      ensures forall i :: 0 <= i < |old(timers)| ==>
        var te := if now < old(lastTime) then old(timers[i]).(whenSec := 0) else old(timers[i]);
        && (te.serial in fired ==> te.id != AE_DELETED_EVENT_ID && Due(te, turns(i).now.0, turns(i).now.1))
        && (Due(te, turns(i).now.0, turns(i).now.1) && te.serial !in fired ==> Deleted(te.serial) in log)
        && (te.serial in fired && turns(i).retval != AE_NOMORE ==> Has(timers, Again(te.serial, turns(i))))
        && (te.serial in fired && turns(i).retval == AE_NOMORE ==> Deleted(te.serial) in log)
    {
      hide TimersOK, FiredIn, Grown, Due, Has, KeepsOthers, TurnDone, Linked, Decreasing;
      AllMarkedInLog(timers, nextId, log);
      ghost var first := timers;
      if now < lastTime { ForceAll(); }
      lastTime := now;
      var maxId := nextId - 1;
      processed, fired := 0, [];
      ghost var rest := timers;
      SerialsDecrease(timers, nextId, log);
      AllLinked(first, rest);
      var count := |timers|;
      var k := count;
      while k > 0
        invariant Valid() && old(log) <= log && FiredIn(log) == FiredIn(old(log)) + fired && |fired| == processed
        invariant 0 <= k <= |rest| && Grown(rest[|rest| - k..], timers) && Decreasing(rest, old(nextId))
        invariant forall i, j :: 0 <= i < j < |fired| ==> fired[i] > fired[j]
        invariant forall i :: 0 <= i < |fired| ==> Linked(first, fired[i])
        invariant forall j :: 0 <= j < |rest| - k && Deleted(rest[j].serial) in old(log) ==> Unlinked(rest[j].serial) in log
        invariant forall i, j :: 0 <= i < |fired| && |rest| - k <= j < |rest| ==> fired[i] > rest[j].serial
        invariant forall j :: 0 <= j < |rest| - k ==> TurnDone(rest[j], turns(j), old(log), log, timers, fired)
        decreases k
      {
        ghost var i, log0, timers0, fired0 := |rest| - k, log, timers, fired;
        SerialsApart(rest, old(nextId), i);
        var fire := Visit(k, maxId, turns(count - k), rest);
        if fire {
          fired := fired + [rest[i].serial];
          processed := processed + 1;
        }
        forall j | 0 <= j < i
          ensures TurnDone(rest[j], turns(j), old(log), log, timers, fired)
        {
          TurnKept(rest[j], turns(j), old(log), log0, log, timers0, timers, fired0, fired, rest[i].serial);
        }
        TurnMade(rest[i], turns(i), old(log), log0, log, timers, fired0, fired, fire);
        k := k - 1;
      }
      TurnsMean(rest, turns, old(log), log, timers, fired);
    }
  }

  /** What a turn comes to: the time when the timer is looked at, what its callback returns, and the time after that. */
  datatype Turn = Turn(now: (int, int), retval: int, after: (int, int))

  /** The timer as its callback asked for it. */
  function Again(serial: nat, turn: Turn): TimeEvent {
    var (sec, ms) := AddMillisecondsToNow(turn.retval, turn.after.0, turn.after.1);
    TimeEvent(serial, serial, sec, ms)
  }

  ghost predicate TurnDone(te: TimeEvent, turn: Turn, log0: seq<Entry>, log: seq<Entry>, timers: seq<TimeEvent>, fired: seq<nat>) {
    && (te.serial in fired ==> Deleted(te.serial) !in log0 && Due(te, turn.now.0, turn.now.1))
    && (Due(te, turn.now.0, turn.now.1) && te.serial !in fired ==> Deleted(te.serial) in log)
    && (te.serial in fired && turn.retval != AE_NOMORE ==> Has(timers, Again(te.serial, turn)))
    && (te.serial in fired && turn.retval == AE_NOMORE ==> Deleted(te.serial) in log)
  }

  lemma TurnKept(te: TimeEvent, turn: Turn, log0: seq<Entry>, log1: seq<Entry>, log2: seq<Entry>, timers1: seq<TimeEvent>,
                 timers2: seq<TimeEvent>, fired1: seq<nat>, fired2: seq<nat>, s: nat)
    requires TurnDone(te, turn, log0, log1, timers1, fired1) && log1 <= log2 && KeepsOthers(timers1, timers2, s)
    requires te.serial != s && (fired2 == fired1 || fired2 == fired1 + [s])
    ensures TurnDone(te, turn, log0, log2, timers2, fired2)
  {
    hide Has, Due;
    assert forall e :: e in log1 ==> e in log2;
  }

  lemma TurnMade(te: TimeEvent, turn: Turn, log0: seq<Entry>, log1: seq<Entry>, log2: seq<Entry>, timers: seq<TimeEvent>,
                 fired1: seq<nat>, fired2: seq<nat>, fire: bool)
    requires log0 <= log1 <= log2 && te.serial !in fired1 && fired2 == (if fire then fired1 + [te.serial] else fired1)
    requires fire <==> Deleted(te.serial) !in log1 && Due(te, turn.now.0, turn.now.1)
    requires fire && turn.retval != AE_NOMORE ==> Has(timers, Again(te.serial, turn))
    requires fire && turn.retval == AE_NOMORE ==> Deleted(te.serial) in log2
    ensures TurnDone(te, turn, log0, log2, timers, fired2)
  {
    hide Has, Due;
    assert forall e :: e in log0 ==> e in log1;
    assert forall e :: e in log1 ==> e in log2;
  }

  lemma TurnsMean(rest: seq<TimeEvent>, turns: nat -> Turn, log0: seq<Entry>, log: seq<Entry>, timers: seq<TimeEvent>, fired: seq<nat>)
    requires forall j :: 0 <= j < |rest| ==> TurnDone(rest[j], turns(j), log0, log, timers, fired)
    ensures forall i :: 0 <= i < |rest| ==>
      && (rest[i].serial in fired ==> Deleted(rest[i].serial) !in log0 && Due(rest[i], turns(i).now.0, turns(i).now.1))
      && (Due(rest[i], turns(i).now.0, turns(i).now.1) && rest[i].serial !in fired ==> Deleted(rest[i].serial) in log)
      && (rest[i].serial in fired && turns(i).retval != AE_NOMORE ==> Has(timers, Again(rest[i].serial, turns(i))))
      && (rest[i].serial in fired && turns(i).retval == AE_NOMORE ==> Deleted(rest[i].serial) in log)
  {
    hide Has, Due;
  }

  lemma AllLinked(timers: seq<TimeEvent>, rest: seq<TimeEvent>)
    requires |rest| == |timers| && forall i :: 0 <= i < |rest| ==> rest[i].serial == timers[i].serial
    ensures forall i :: 0 <= i < |rest| ==> Linked(timers, rest[i].serial)
  {
  }

  lemma SerialsApart(rest: seq<TimeEvent>, nextId: nat, i: nat)
    requires Decreasing(rest, nextId) && i < |rest|
    ensures rest[i].serial < nextId && (forall j :: 0 <= j < |rest| && j != i ==> rest[j].serial != rest[i].serial)
    ensures forall j :: i < j < |rest| ==> rest[j].serial < rest[i].serial
  {
  }

  lemma GrownAt(timers: seq<TimeEvent>, timers2: seq<TimeEvent>, p: nat)
    requires Grown(timers, timers2) && p < |timers|
    ensures |timers| <= |timers2| && Same(timers2[|timers2| - |timers| + p], timers[p])
  {
  }

  lemma GrownSized(timers: seq<TimeEvent>, timers2: seq<TimeEvent>)
    requires Grown(timers, timers2)
    ensures |timers| <= |timers2|
  {
  }

  lemma SameSerial(a: TimeEvent, b: TimeEvent)
    requires Same(a, b)
    ensures a.serial == b.serial
  {
  }

  lemma HasAgain(timers: seq<TimeEvent>, p: nat, te: TimeEvent, turn: Turn)
    requires p < |timers| && timers[p].serial == te.serial
    requires (timers[p].whenSec, timers[p].whenMs) == AddMillisecondsToNow(turn.retval, turn.after.0, turn.after.1)
    ensures Has(timers, Again(te.serial, turn))
  {
    assert Same(timers[p], Again(te.serial, turn));
  }

  lemma KeepsAll(timers: seq<TimeEvent>, s: nat)
    ensures KeepsOthers(timers, timers, s)
  {
  }

  lemma WithoutHas(timers: seq<TimeEvent>, p: nat)
    requires p < |timers|
    ensures forall i :: 0 <= i < |timers| && timers[i].serial != timers[p].serial ==> Has(timers[..p] + timers[p + 1..], timers[i])
  {
    var r := timers[..p] + timers[p + 1..];
    forall i | 0 <= i < |timers| && timers[i].serial != timers[p].serial
      ensures Has(r, timers[i])
    {
      assert Same(r[if i < p then i else i - 1], timers[i]);
    }
  }

  /** A list that grew, and then had the timer changed that was at `p`. */
  lemma FiredKeeps(timers: seq<TimeEvent>, p: nat, mid: seq<TimeEvent>, q: nat, timers2: seq<TimeEvent>)
    requires p < |timers| && Grown(timers, mid) && q == |mid| - |timers| + p
    requires |timers2| == |mid| && forall i :: 0 <= i < |mid| && i != q ==> timers2[i] == mid[i]
    ensures Grown(timers[p + 1..], timers2) && KeepsOthers(timers, timers2, timers[p].serial)
  {
    var shift := |mid| - |timers|;
    forall i | 0 <= i < |timers| && i != p
      ensures Same(timers2[shift + i], timers[i])
    {
      GrownAt(timers, mid, i);
    }
    hide Grown, Same;
    TailGrown(timers, p, timers2, shift);
    forall t: TimeEvent | Has(timers, t) && t.serial != timers[p].serial
      ensures Has(timers2, t)
    {
      var i :| 0 <= i < |timers| && Same(timers[i], t);
      SameTwice(timers2[shift + i], timers[i], t, timers[p]);
    }
  }

  lemma SameTwice(a: TimeEvent, b: TimeEvent, c: TimeEvent, d: TimeEvent)
    requires Same(b, c)
    ensures Same(a, b) ==> Same(a, c)
    ensures c.serial != d.serial ==> b != d
  {
  }

  lemma TailGrown(timers: seq<TimeEvent>, p: nat, timers2: seq<TimeEvent>, shift: nat)
    requires p < |timers| && |timers2| == |timers| + shift
    requires forall i :: 0 <= i < |timers| && i != p ==> Same(timers2[shift + i], timers[i])
    ensures Grown(timers[p + 1..], timers2)
  {
    var tail := timers[p + 1..];
    forall i | 0 <= i < |tail|
      ensures Same(timers2[|timers2| - |tail| + i], tail[i])
    {
      assert Same(timers2[shift + (p + 1 + i)], timers[p + 1 + i]);
    }
  }

  /** With normal milliseconds a timer is due when its deadline is not in the future. */
  lemma DueIff(t: TimeEvent, nowSec: int, nowMs: int)
    requires 0 <= t.whenMs < 1000 && 0 <= nowMs < 1000
    ensures Due(t, nowSec, nowMs) <==> Deadline(t) <= nowSec * 1000 + nowMs
  {
  }

  predicate Due(t: TimeEvent, nowSec: int, nowMs: int) {
    nowSec > t.whenSec || (nowSec == t.whenSec && nowMs >= t.whenMs)
  }

  lemma MarkedInLog(timers: seq<TimeEvent>, nextId: nat, log: seq<Entry>, p: nat)
    requires TimersOK(timers, nextId, log) && p < |timers|
    ensures timers[p].id == AE_DELETED_EVENT_ID <==> Deleted(timers[p].serial) in log
    ensures timers[p].id != AE_DELETED_EVENT_ID ==> timers[p].id == timers[p].serial
  {
  }

  lemma AllMarkedInLog(timers: seq<TimeEvent>, nextId: nat, log: seq<Entry>)
    requires TimersOK(timers, nextId, log)
    ensures forall i :: 0 <= i < |timers| && timers[i].id == AE_DELETED_EVENT_ID ==> Deleted(timers[i].serial) in log
  {
  }

  lemma GrownTwice(a: seq<TimeEvent>, b: seq<TimeEvent>, c: seq<TimeEvent>)
    requires Grown(a, b) && Grown(b, c)
    ensures Grown(a, c)
  {
    forall i | 0 <= i < |a|
      ensures Same(c[|c| - |a| + i], a[i])
    {
      assert Same(b[|b| - |a| + i], a[i]);
    }
  }

  lemma GrownNext(rest: seq<TimeEvent>, timers: seq<TimeEvent>, k: nat)
    requires 0 < k <= |rest| && Grown(rest[|rest| - k..], timers)
    ensures k <= |timers| && Grown(rest[|rest| - k + 1..], timers) && Grown(rest[|rest| - k + 1..], timers[|timers| - k + 1..])
    ensures Grown(rest[|rest| - k + 1..], timers[..|timers| - k] + timers[|timers| - k + 1..])
  {
    var p, q := |timers| - k, |rest| - k;
    var t := timers[..p] + timers[p + 1..];
    var r := rest[q + 1..];
    forall i | 0 <= i < |r|
      ensures Same(timers[|timers| - |r| + i], r[i]) && Same(t[|t| - |r| + i], r[i])
    {
      assert Same(timers[p + (i + 1)], rest[q..][i + 1]);
    }
  }

  ghost predicate Decreasing(timers: seq<TimeEvent>, nextId: nat) {
    && (forall i :: 0 <= i < |timers| ==> timers[i].serial < nextId)
    && (forall i, j :: 0 <= i < j < |timers| ==> timers[i].serial > timers[j].serial)
  }

  lemma SerialsDecrease(timers: seq<TimeEvent>, nextId: nat, log: seq<Entry>)
    requires TimersOK(timers, nextId, log)
    ensures Decreasing(timers, nextId) && timers[0..] == timers && Grown(timers, timers)
  {
  }
}
