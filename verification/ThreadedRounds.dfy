/**
 The rounds of the threaded writes end (networking.c): from every reachable state in a round the main
 thread and the I/O threads can finish it; and they do, whatever the order in which they act, as long as
 each of them acts again and again and the main thread does not have to take a mutex.
 */
module ThreadedRounds {
  import opened Basics
  import opened ThreadedWrites

  /** The actions that belong to a round. */
  predicate Inside(a: Action) {
    a == Main || a.Worker?
  }

  predicate AllInside(acts: seq<Action>) {
    forall i :: 0 <= i < |acts| ==> Inside(acts[i])
  }

  predicate Ended(s: State) {
    s.main == Idle && s.queue == []
  }

  /** Some run of the main thread and the I/O threads ends the round. */
  ghost predicate CanEnd(s: State)
    requires |s.threads| > 1
  {
    exists acts :: AllInside(acts) && Ended(Exec(s, acts))
  }

  lemma NowEnded(s: State)
    requires |s.threads| > 1 && Ended(s)
    ensures CanEnd(s)
  {
    assert AllInside([]) && Exec(s, []) == s;
  }

  lemma EndsAfter(s: State, a: Action)
    requires |s.threads| > 1 && Inside(a) && Step(s, a).Some? && CanEnd(Step(s, a).value)
    ensures CanEnd(s)
  {
    hide Step;
    var acts :| AllInside(acts) && Ended(Exec(Step(s, a).value, acts));
    var more := [a] + acts;
    assert more[1..] == acts;
    assert AllInside(more) && Exec(s, more) == Exec(Step(s, a).value, acts);
  }

  // ----------------------------------------------------- one phase at a time

  lemma {:induction false} InstallingEnds(s: State)
    requires Inv(s) && s.main.Installing?
    ensures CanEnd(s)
    decreases if s.main.i < |s.queue| then |s.queue| - s.main.i else 0
  {
    hide Inv, CanEnd;
    InvSized(s);
    StepKeeps(s, Main);
    var s2 := Step(s, Main).value;
    if s.main.i < |s.queue| { InstallingEnds(s2); } else { NowEnded(s2); }
    EndsAfter(s, Main);
  }

  predicate NoCounts(s: State) {
    forall j :: 0 <= j < |s.threads| ==> s.threads[j].pending == 0
  }

  /** The wait ends when all counts are zero, after at most one sum that has seen others. */
  lemma {:induction false} ZeroWaitEnds(s: State)
    requires Inv(s) && s.main.Waiting? && NoCounts(s)
    ensures CanEnd(s)
    decreases s.main.sum > 0, if s.main.j < |s.threads| then |s.threads| - s.main.j else 0
  {
    hide Inv, CanEnd;
    InvSized(s);
    StepKeeps(s, Main);
    var s2 := Step(s, Main).value;
    if s2.main.Installing? { InstallingEnds(s2); } else { ZeroWaitEnds(s2); }
    EndsAfter(s, Main);
  }

  /** How far a thread is from having no count. */
  function Away(t: Thread): nat {
    if t.pending == 0 || (t.pc.Working? && t.pc.k > |t.list|) then 0 else Left(t)
  }

  /** What Progress says, of any state with the invariant. */
  lemma Nearer(s: State, j: nat)
    requires Inv(s) && j < |s.threads| && s.threads[j].pending != 0
    ensures var t := s.threads[j]; ThreadStep(t).Some? && Away(ThreadStep(t).value) < Away(t) <= |s.queue| + 5
  {
    hide Share;
    ShareShort(s.queue, j, |s.threads|);
    assert ThreadOK(s.main, s.active, s.queue, Last(s), |s.threads|, j, s.threads[j]);
  }

  lemma {:induction false} ShareShort(queue: seq<ClientId>, j: nat, n: nat)
    requires n > 0
    ensures |Share(queue, j, n)| <= |queue|
  {
    if queue != [] { ShareShort(queue[..|queue| - 1], j, n); }
  }

  /** Thread after thread clears its count. */
  lemma {:induction false} WaitEnds(s: State, j: nat)
    requires Inv(s) && s.main.Waiting? && j <= |s.threads| && forall i :: 0 <= i < j ==> s.threads[i].pending == 0
    ensures CanEnd(s)
    decreases |s.threads| - j, if j < |s.threads| then Away(s.threads[j]) else 0
  {
    hide Inv, CanEnd, Away;
    InvSized(s);
    if j == |s.threads| {
      ZeroWaitEnds(s);
    } else if s.threads[j].pending == 0 {
      WaitEnds(s, j + 1);
    } else {
      Nearer(s, j);
      StepKeeps(s, Worker(j));
      WaitEnds(Step(s, Worker(j)).value, j);
      EndsAfter(s, Worker(j));
    }
  }

  lemma {:induction false} PublishingEnds(s: State)
    requires Inv(s) && s.main.Publishing?
    ensures CanEnd(s)
    decreases if s.main.j < |s.threads| then |s.threads| - s.main.j else 0
  {
    hide Inv, CanEnd;
    InvSized(s);
    StepKeeps(s, Main);
    var s2 := Step(s, Main).value;
    if s.main.j < |s.threads| { PublishingEnds(s2); } else { WaitEnds(s2, 0); }
    EndsAfter(s, Main);
  }

  lemma {:induction false} SharingEnds(s: State)
    requires Inv(s) && s.main.Sharing?
    ensures CanEnd(s)
    decreases if s.main.i < |s.queue| then |s.queue| - s.main.i else 0
  {
    hide Inv, CanEnd;
    InvSized(s);
    StepKeeps(s, Main);
    var s2 := Step(s, Main).value;
    if s.main.i < |s.queue| { SharingEnds(s2); } else { PublishingEnds(s2); }
    EndsAfter(s, Main);
  }

  lemma {:induction false} StartingEnds(s: State)
    requires Inv(s) && s.main.Starting?
    ensures CanEnd(s)
    decreases if s.main.j < |s.threads| then |s.threads| - s.main.j else 0
  {
    hide Inv, CanEnd;
    InvSized(s);
    StepKeeps(s, Main);
    var s2 := Step(s, Main).value;
    if s.main.j < |s.threads| { StartingEnds(s2); } else { SharingEnds(s2); }
    EndsAfter(s, Main);
  }

  lemma {:induction false} ServingEnds(s: State)
    requires Inv(s) && s.main.Serving?
    ensures CanEnd(s)
    decreases |s.queue|
  {
    hide Inv, CanEnd;
    InvSized(s);
    StepKeeps(s, Main);
    var s2 := Step(s, Main).value;
    if s.queue != [] { ServingEnds(s2); } else { NowEnded(s2); }
    EndsAfter(s, Main);
  }

  /** The main thread waits for a mutex only while its thread can give it back. */
  lemma MutexComes(s: State)
    requires Inv(s) && s.main.Stopping? && s.main.j < |s.threads| && s.threads[s.main.j].mutex != Free
    ensures s.threads[s.main.j].pc == Holding
  {
    assert ThreadOK(s.main, s.active, s.queue, Last(s), |s.threads|, s.main.j, s.threads[s.main.j]);
  }

  lemma {:induction false} StoppingEnds(s: State)
    requires Inv(s) && s.main.Stopping?
    ensures CanEnd(s)
    decreases if s.main.j < |s.threads| then |s.threads| - s.main.j else 0,
      s.main.j < |s.threads| && s.threads[s.main.j].mutex != Free
  {
    hide Inv, CanEnd;
    InvSized(s);
    var j := s.main.j;
    if j < |s.threads| && s.threads[j].mutex != Free {
      MutexComes(s);
      StepKeeps(s, Worker(j));
      StoppingEnds(Step(s, Worker(j)).value);
      EndsAfter(s, Worker(j));
    } else {
      StepKeeps(s, Main);
      var s2 := Step(s, Main).value;
      if j < |s.threads| { StoppingEnds(s2); } else { ServingEnds(s2); }
      EndsAfter(s, Main);
    }
  }

  /** From every reachable state in a round, the main thread and the I/O threads can end it, with the queue empty. */
  lemma RoundCanEnd(n: nat, acts: seq<Action>)
    requires 1 < n && Exec(InitState(n), acts).main != Idle
    ensures exists more :: AllInside(more) && var s := Exec(Exec(InitState(n), acts), more); s.main == Idle && s.queue == []
  {
    InitInv(n);
    ExecKeeps(InitState(n), acts);
    var s := Exec(InitState(n), acts);
    hide Inv;
    match s.main {
      case Starting(_) => StartingEnds(s);
      case Stopping(_) => StoppingEnds(s);
      case Serving => ServingEnds(s);
      case Sharing(_) => SharingEnds(s);
      case Publishing(_) => PublishingEnds(s);
      case Waiting(_, _) => WaitEnds(s, 0);
      case Installing(_) => InstallingEnds(s);
    }
    assert CanEnd(s);
  }

  // -------------------------------------------------------- the main thread

  function Mains(k: nat): seq<Action> {
    seq(k, _ => Main)
  }

  lemma ExecMain(s: State, k: nat)
    requires |s.threads| > 1 && MainStep(s).Some?
    ensures Exec(s, Mains(k + 1)) == Exec(MainStep(s).value, Mains(k))
  {
    hide MainStep;
    assert Mains(k + 1)[0] == Main && Mains(k + 1)[1..] == Mains(k);
  }

  lemma {:induction false} InstallingTakes(s: State)
    requires |s.threads| > 1 && s.main.Installing? && s.main.i <= |s.queue|
    ensures Ended(Exec(s, Mains(|s.queue| - s.main.i + 1)))
    decreases |s.queue| - s.main.i
  {
    var k := |s.queue| - s.main.i;
    ExecMain(s, k);
    if k > 0 { InstallingTakes(MainStep(s).value); } else { assert Mains(0) == []; }
  }

  /** With all counts zero, a sum begun afresh takes an action for each thread, one for each client, and two more. */
  lemma {:induction false} WaitingTakes(s: State)
    requires |s.threads| > 1 && s.main.Waiting? && s.main.sum == 0 && s.main.j <= |s.threads| && NoCounts(s)
    ensures Ended(Exec(s, Mains(|s.threads| - s.main.j + |s.queue| + 2)))
    decreases |s.threads| - s.main.j
  {
    ExecMain(s, |s.threads| - s.main.j + |s.queue| + 1);
    if s.main.j < |s.threads| { WaitingTakes(MainStep(s).value); } else { InstallingTakes(MainStep(s).value); }
  }

  // ------------------------------------------------------ any order of acting

  function Next(s: State, a: Action): (r: State)
    requires |s.threads| > 1
    ensures |r.threads| == |s.threads|
  {
    if Step(s, a).Some? then Step(s, a).value else s
  }

  /** The round ends in the course of the run. */
  predicate EndsIn(s: State, acts: seq<Action>)
    requires |s.threads| > 1
    decreases |acts|
  {
    Ended(s) || (acts != [] && EndsIn(Next(s, acts[0]), acts[1..]))
  }

  /** In the wait, or after it. */
  ghost predicate InWait(s: State, n: nat, q: nat) {
    Inv(s) && (s.main.Waiting? || s.main.Installing?) && |s.threads| == n && |s.queue| == q
  }

  /** How many actions of the main thread the round still takes, once all counts are zero. */
  function MainLeft(s: State): nat {
    match s.main
    case Waiting(j, sum) =>
      |s.queue| + 2 + (if j < |s.threads| then |s.threads| - j else 0) + (if sum > 0 then |s.threads| + 1 else 0)
    case Installing(i) => 1 + (if i < |s.queue| then |s.queue| - i else 0)
    case _ => 0
  }

  /** An action of a thread brings it nearer to having no count and leaves the others where they are. */
  lemma WorkerActs(s: State, n: nat, q: nat, j: nat)
    requires InWait(s, n, q)
    ensures var s2 := Next(s, Worker(j));
      && InWait(s2, n, q) && s2.main == s.main
      && (forall i :: 0 <= i < n && i != j ==> s2.threads[i] == s.threads[i])
      && (j < n ==> if s.threads[j].pending == 0 then s2.threads[j].pending == 0 else Away(s2.threads[j]) < Away(s.threads[j]))
  {
    InvSized(s);
    if Step(s, Worker(j)).Some? { StepKeeps(s, Worker(j)); }
    hide Inv;
    if j < n && s.threads[j].pending != 0 { Nearer(s, j); }
  }

  lemma MainActs(s: State, n: nat, q: nat)
    requires InWait(s, n, q)
    ensures var s2 := Next(s, Main);
      Ended(s2) || (InWait(s2, n, q) && s2.threads == s.threads && (NoCounts(s) ==> MainLeft(s2) < MainLeft(s)))
  {
    InvSized(s);
    StepKeeps(s, Main);
  }

  lemma {:induction false} EndsInMore(s: State, a: seq<Action>, b: seq<Action>)
    requires |s.threads| > 1
    ensures EndsIn(s, a + b) <==> EndsIn(s, a) || EndsIn(Exec(s, a), b)
    ensures Exec(s, a + b) == Exec(Exec(s, a), b)
    decreases |a|
  {
    hide Step;
    if a == [] {
      assert a + b == b;
    } else {
      assert (a + b)[1..] == a[1..] + b;
      EndsInMore(Next(s, a[0]), a[1..], b);
    }
  }

  /** Every thread with a count is at most `l` actions away from having none, and those in `acted` fewer. */
  ghost predicate Near(s: State, l: nat, acted: set<nat>) {
    forall j :: 0 <= j < |s.threads| ==> Close(s.threads[j], if j in acted then l - 1 else l)
  }

  ghost predicate Close(t: Thread, l: int) {
    t.pending != 0 ==> Away(t) <= l
  }

  function Acted(acts: seq<Action>, before: set<nat>): set<nat> {
    if acts == [] then before else Acted(acts[1..], if acts[0].Worker? then before + {acts[0].id} else before)
  }

  lemma {:induction false} ActedAll(acts: seq<Action>, before: set<nat>, j: nat)
    requires Worker(j) in acts || j in before
    ensures j in Acted(acts, before)
    decreases |acts|
  {
    if acts != [] {
      assert acts == [acts[0]] + acts[1..];
      ActedAll(acts[1..], if acts[0].Worker? then before + {acts[0].id} else before, j);
    }
  }

  lemma NearStep(s: State, s2: State, l: nat, acted: set<nat>, j: nat, n: nat)
    requires Near(s, l, acted) && |s.threads| == |s2.threads| == n && l > 0
    requires forall i :: 0 <= i < n && i != j ==> s2.threads[i] == s.threads[i]
    requires j < n ==> if s.threads[j].pending == 0 then s2.threads[j].pending == 0 else Away(s2.threads[j]) < Away(s.threads[j])
    ensures Near(s2, l, acted + {j})
  {
    hide Away;
    forall i | 0 <= i < n
      ensures Close(s2.threads[i], if i in acted + {j} then l - 1 else l)
    {
      assert Close(s.threads[i], if i in acted then l - 1 else l);
    }
  }

  /** A run in which threads act: those that have acted are nearer. */
  lemma {:induction false} RunNears(s: State, acts: seq<Action>, n: nat, q: nat, l: nat, acted: set<nat>)
    requires InWait(s, n, q) && AllInside(acts) && Near(s, l, acted) && l > 0
    ensures n > 1 && (EndsIn(s, acts) || (InWait(Exec(s, acts), n, q) && Near(Exec(s, acts), l, Acted(acts, acted))))
    decreases |acts|
  {
    InvSized(s);
    hide InWait, Near, Step;
    if acts != [] {
      var s2 := Next(s, acts[0]);
      match acts[0] {
        case Main =>
          MainActs(s, n, q);
          if !Ended(s2) {
            NearSame(s, s2, l, acted);
            RunNears(s2, acts[1..], n, q, l, acted);
          }
        case Worker(j) =>
          WorkerActs(s, n, q, j);
          WaitSized(s, n, q);
          WaitSized(s2, n, q);
          NearStep(s, s2, l, acted, j, n);
          RunNears(s2, acts[1..], n, q, l, acted + {j});
      }
    }
  }

  lemma WaitSized(s: State, n: nat, q: nat)
    requires InWait(s, n, q)
    ensures |s.threads| == n > 1 && |s.queue| == q && MainLeft(s) > 0 && MainLeft(s) <= q + 2 * n + 3
  {
  }

  lemma NearSame(s: State, s2: State, l: nat, acted: set<nat>)
    requires Near(s, l, acted) && s2.threads == s.threads
    ensures Near(s2, l, acted)
  {
  }

  /** A run in which the main thread acts, after all counts are zero. */
  lemma {:induction false} RunCounts(s: State, acts: seq<Action>, n: nat, q: nat)
    requires InWait(s, n, q) && AllInside(acts) && NoCounts(s)
    ensures n > 1 && (EndsIn(s, acts) || (InWait(Exec(s, acts), n, q) && NoCounts(Exec(s, acts))
      && MainLeft(Exec(s, acts)) <= MainLeft(s) - if Main in acts then 1 else 0))
    decreases |acts|
  {
    InvSized(s);
    WaitSized(s, n, q);
    hide InWait, Step, MainLeft;
    if acts != [] {
      var s2 := Next(s, acts[0]);
      assert acts == [acts[0]] + acts[1..];
      match acts[0] {
        case Main =>
          MainActs(s, n, q);
          if !Ended(s2) { RunCounts(s2, acts[1..], n, q); }
        case Worker(j) =>
          WorkerActs(s, n, q, j);
          SameLeft(s, s2, n, q);
          RunCounts(s2, acts[1..], n, q);
      }
    }
  }

  lemma SameLeft(s: State, s2: State, n: nat, q: nat)
    requires InWait(s, n, q) && InWait(s2, n, q) && s2.main == s.main
    ensures MainLeft(s2) == MainLeft(s)
  {
  }

  /** A stretch of a run in which the main thread and every one of `n` I/O threads act at least once. */
  predicate Fair(acts: seq<Action>, n: nat) {
    AllInside(acts) && Main in acts && forall j :: 0 <= j < n ==> Worker(j) in acts
  }

  function Concat(parts: seq<seq<Action>>): seq<Action> {
    if parts == [] then [] else parts[0] + Concat(parts[1..])
  }

  lemma {:induction false} CountedEnds(s: State, parts: seq<seq<Action>>, n: nat, q: nat)
    requires InWait(s, n, q) && NoCounts(s) && |parts| >= MainLeft(s) && forall i :: 0 <= i < |parts| ==> Fair(parts[i], n)
    ensures n > 1 && EndsIn(s, Concat(parts))
    decreases |parts|
  {
    WaitSized(s, n, q);
    hide InWait, MainLeft, EndsIn;
    assert Fair(parts[0], n);
    RunCounts(s, parts[0], n, q);
    if !EndsIn(s, parts[0]) { CountedEnds(Exec(s, parts[0]), parts[1..], n, q); }
    EndsInMore(s, parts[0], Concat(parts[1..]));
  }

  lemma {:induction false} NearEnds(s: State, parts: seq<seq<Action>>, n: nat, q: nat, l: nat)
    requires InWait(s, n, q) && Near(s, l, {}) && |parts| >= l + q + 2 * n + 3 && forall i :: 0 <= i < |parts| ==> Fair(parts[i], n)
    ensures n > 1 && EndsIn(s, Concat(parts))
    decreases l
  {
    WaitSized(s, n, q);
    if l == 0 {
      AllZero(s, n, q);
      CountedEnds(s, parts, n, q);
    } else {
      assert Fair(parts[0], n);
      RunNears(s, parts[0], n, q, l, {});
      hide InWait, EndsIn;
      if !EndsIn(s, parts[0]) {
        NearAll(Exec(s, parts[0]), l, parts[0], n);
        NearEnds(Exec(s, parts[0]), parts[1..], n, q, l - 1);
      }
      EndsInMore(s, parts[0], Concat(parts[1..]));
    }
  }

  lemma AllZero(s: State, n: nat, q: nat)
    requires InWait(s, n, q) && Near(s, 0, {})
    ensures NoCounts(s)
  {
    forall j | 0 <= j < |s.threads|
      ensures s.threads[j].pending == 0
    {
      assert Close(s.threads[j], 0);
      if s.threads[j].pending != 0 { Nearer(s, j); }
    }
  }

  lemma NearAll(s: State, l: nat, acts: seq<Action>, n: nat)
    requires l > 0 && |s.threads| == n && Fair(acts, n) && Near(s, l, Acted(acts, {}))
    ensures Near(s, l - 1, {})
  {
    hide Close;
    forall j | 0 <= j < n
      ensures Close(s.threads[j], l - 1)
    {
      ActedAll(acts, {}, j);
    }
  }

  lemma NearStart(s: State, n: nat, q: nat)
    requires InWait(s, n, q)
    ensures Near(s, q + 5, {})
  {
    forall j | 0 <= j < n
      ensures Close(s.threads[j], q + 5)
    {
      if s.threads[j].pending != 0 { Nearer(s, j); }
    }
  }

  /** How many actions of the main thread come before the wait, or before the end if it serves the queue itself. */
  function Before(s: State): nat {
    var n, q := |s.threads|, |s.queue|;
    match s.main
    case Starting(j) => (if j < n then n - j else 0) + q + n + 3
    case Sharing(i) => (if i < q then q - i else 0) + n + 2
    case Publishing(j) => (if j < n then n - j else 0) + 1
    case Serving => q + 1
    case Stopping(_) => q + 2
    case _ => 0
  }

  /** The main thread is about to take the mutex of a thread. */
  predicate StopsNext(s: State) {
    s.main.Stopping? && s.main.j < |s.threads|
  }

  /** In a round, at most `l` actions of the main thread before the wait; the main thread needs no mutex. */
  ghost predicate OnCourse(s: State, n: nat, q: nat, l: nat) {
    && Inv(s) && s.main != Idle && !StopsNext(s) && |s.threads| == n && Before(s) <= l
    && (!s.main.Serving? ==> |s.queue| == q)
  }

  lemma CourseActs(s: State, n: nat, q: nat, l: nat, a: Action)
    requires OnCourse(s, n, q, l) && Inside(a)
    ensures n > 1
    ensures var s2 := Next(s, a); Ended(s2) || OnCourse(s2, n, q, if a == Main && l > 0 then l - 1 else l)
  {
    InvSized(s);
    if Step(s, a).Some? { StepKeeps(s, a); }
    hide Inv;
  }

  lemma {:induction false} CourseRuns(s: State, acts: seq<Action>, n: nat, q: nat, l: nat)
    requires OnCourse(s, n, q, l) && AllInside(acts)
    ensures n > 1 && (EndsIn(s, acts) || OnCourse(Exec(s, acts), n, q, if Main in acts && l > 0 then l - 1 else l))
    decreases |acts|
  {
    InvSized(s);
    if acts != [] {
      var s2 := Next(s, acts[0]);
      assert acts == [acts[0]] + acts[1..];
      CourseActs(s, n, q, l, acts[0]);
      hide OnCourse, Step;
      if !Ended(s2) {
        var l2 := if acts[0] == Main && l > 0 then l - 1 else l;
        CourseRuns(s2, acts[1..], n, q, l2);
        if !EndsIn(s2, acts[1..]) && Main in acts[1..] && acts[0] == Main { CourseSlack(Exec(s, acts), n, q, l); }
      }
    }
  }

  lemma CourseSlack(s: State, n: nat, q: nat, l: nat)
    requires OnCourse(s, n, q, if l > 1 then l - 2 else 0)
    ensures OnCourse(s, n, q, if l > 0 then l - 1 else 0)
  {
  }

  lemma {:induction false} CourseEnds(s: State, parts: seq<seq<Action>>, n: nat, q: nat, l: nat)
    requires OnCourse(s, n, q, l) && |parts| >= l + 2 * q + 2 * n + 8 && forall i :: 0 <= i < |parts| ==> Fair(parts[i], n)
    ensures n > 1 && EndsIn(s, Concat(parts))
    decreases l
  {
    InvSized(s);
    if l == 0 {
      NearStart(s, n, q);
      hide Inv, EndsIn, Near;
      NearEnds(s, parts, n, q, q + 5);
    } else {
      hide OnCourse, EndsIn, Inv;
      assert Fair(parts[0], n);
      CourseRuns(s, parts[0], n, q, l);
      if !EndsIn(s, parts[0]) { CourseEnds(Exec(s, parts[0]), parts[1..], n, q, l - 1); }
      EndsInMore(s, parts[0], Concat(parts[1..]));
    }
  }

  // ------------------------------------------------------------ an unfair mutex

  /** The main thread waits for the mutex of thread `j`, which holds it. */
  predicate Held(s: State, j: nat) {
    && |s.threads| > 1 && j < |s.threads| && s.main == Stopping(j)
    && s.threads[j].pc == Holding && s.threads[j].mutex == ByWorker && s.threads[j].pending == 0
  }

  /** The other threads leave thread `j` and the main thread where they are. */
  lemma {:induction false} OthersAct(s: State, acts: seq<Action>, j: nat)
    requires Held(s, j) && forall i :: 0 <= i < |acts| ==> acts[i].Worker? && acts[i].id != j
    ensures !EndsIn(s, acts) && Held(Exec(s, acts), j)
    decreases |acts|
  {
    if acts != [] { OthersAct(Next(s, acts[0]), acts[1..], j); }
  }

  lemma OneMore(s: State, a: Action, acts: seq<Action>)
    requires |s.threads| > 1 && s.main != Idle
    ensures EndsIn(s, [a] + acts) <==> EndsIn(Next(s, a), acts)
    ensures Exec(s, [a] + acts) == Exec(Next(s, a), acts)
  {
    assert ([a] + acts)[1..] == acts;
    hide Step;
  }

  /** Thread `j` gives the mutex back and takes it again before the main thread acts. */
  lemma TakesAgain(s: State, j: nat)
    requires Held(s, j)
    ensures var acts := [Worker(j), Worker(j), Worker(j)]; !EndsIn(s, acts) && Held(Exec(s, acts), j)
  {
    var acts := [Worker(j), Worker(j), Worker(j)];
    var s1 := Next(s, Worker(j));
    var s2 := Next(s1, Worker(j));
    var s3 := Next(s2, Worker(j));
    assert s1.threads[j].pc == Spin && s2.threads[j].pc == Pc.AtMutex && Held(s3, j);
    OneMore(s, Worker(j), [Worker(j), Worker(j)]);
    OneMore(s1, Worker(j), [Worker(j)]);
    OneMore(s2, Worker(j), []);
    assert acts == [Worker(j)] + [Worker(j), Worker(j)] && [Worker(j), Worker(j)] == [Worker(j)] + [Worker(j)] && [Worker(j)] == [Worker(j)] + [];
  }

  /** A stretch in which every thread acts and the main thread does not get the mutex. */
  function Starving(j: nat, n: nat): seq<Action>
    requires j < n
  {
    [Main] + (seq(j, i requires 0 <= i => Worker(i)) + ([Worker(j), Worker(j), Worker(j)] + seq(n - j - 1, i requires 0 <= i => Worker(j + 1 + i))))
  }

  lemma StarvingFair(j: nat, n: nat)
    requires j < n
    ensures Fair(Starving(j, n), n)
  {
    var acts := Starving(j, n);
    forall i | 0 <= i < n
      ensures Worker(i) in acts
    {
      assert acts[if i < j then 1 + i else if i == j then 1 + j else 3 + i] == Worker(i);
    }
    assert acts[0] == Main;
  }

  lemma Blocked(s: State, j: nat)
    requires Held(s, j)
    ensures s.main != Idle && Next(s, Main) == s
  {
  }

  lemma StarvingStays(s: State, j: nat)
    requires Held(s, j)
    ensures !EndsIn(s, Starving(j, |s.threads|)) && Held(Exec(s, Starving(j, |s.threads|)), j)
  {
    Blocked(s, j);
    hide Held, EndsIn, Exec, Step, Next;
    var n := |s.threads|;
    var a, b, c := seq(j, i requires 0 <= i => Worker(i)), [Worker(j), Worker(j), Worker(j)], seq(n - j - 1, i requires 0 <= i => Worker(j + 1 + i));
    assert Starving(j, n) == [Main] + (a + (b + c));
    hide Starving;
    OthersAct(s, a, j);
    TakesAgain(Exec(s, a), j);
    OthersAct(Exec(Exec(s, a), b), c, j);
    EndsInMore(Exec(s, a), b, c);
    EndsInMore(s, a, b + c);
    OneMore(s, Main, a + (b + c));
  }

  lemma {:induction false} StarvingForever(s: State, j: nat, k: nat)
    requires Held(s, j)
    ensures !EndsIn(s, Concat(seq(k, _ => Starving(j, |s.threads|))))
    decreases k
  {
    var part := Starving(j, |s.threads|);
    var parts := seq(k, _ => part);
    if k > 0 {
      hide EndsIn, Starving;
      StarvingStays(s, j);
      assert parts[1..] == seq(k - 1, _ => part);
      StarvingForever(Exec(s, part), j, k - 1);
      EndsInMore(s, part, Concat(parts[1..]));
    }
  }

  /** The thread whose mutex the main thread is about to take gets it first. */
  lemma GetsFirst(s: State) returns (lead: seq<Action>)
    requires Inv(s) && StopsNext(s)
    ensures AllInside(lead) && !EndsIn(s, lead) && Held(Exec(s, lead), s.main.j) && |Exec(s, lead).threads| == |s.threads|
  {
    var j := s.main.j;
    var t := s.threads[j];
    assert ThreadOK(s.main, s.active, s.queue, Last(s), |s.threads|, j, t);
    hide Inv;
    match t.pc {
      case Holding =>
        lead := [];
      case AtMutex =>
        lead := [Worker(j)];
        OneMore(s, Worker(j), []);
        assert Held(Next(s, Worker(j)), j) && lead == lead + [];
      case Spin =>
        lead := [Worker(j), Worker(j)];
        var s1 := Next(s, Worker(j));
        OneMore(s, Worker(j), [Worker(j)]);
        OneMore(s1, Worker(j), []);
        assert lead == [Worker(j)] + [Worker(j)] && [Worker(j)] == [Worker(j)] + [];
        assert s1.threads[j].pc == Pc.AtMutex && Held(Next(s1, Worker(j)), j);
    }
  }

  /** While the main thread waits for a mutex it can be kept waiting for any time, because a mutex need not be fair. */
  lemma MutexStarves(n: nat, acts: seq<Action>, k: nat)
    requires 1 < n && StopsNext(Exec(InitState(n), acts))
    ensures exists parts :: |parts| == k && (forall i :: 0 <= i < k ==> Fair(parts[i], n)) && !EndsIn(Exec(InitState(n), acts), Concat(parts))
  {
    InitInv(n);
    ExecKeeps(InitState(n), acts);
    var s := Exec(InitState(n), acts);
    var j := s.main.j;
    var lead := GetsFirst(s);
    hide Inv, Held, Starving, Step;
    var s1 := Exec(s, lead);
    StarvingForever(s1, j, k);
    StarvingFair(j, n);
    var parts := seq(k, _ => Starving(j, n));
    if k > 0 {
      var led := parts[0 := lead + parts[0]];
      assert led[1..] == parts[1..];
      LeadIn(s, lead, parts);
      LeadFair(lead, parts[0], n);
      assert forall i :: 0 <= i < k ==> Fair(led[i], n);
    } else {
      assert parts == [] && !EndsIn(s, Concat(parts));
    }
  }

  /** In a round of the I/O threads, or after one. */
  predicate Threaded(s: State) {
    s.main.Starting? || (s.active && (s.main.Sharing? || s.main.Publishing? || s.main.Waiting? || s.main.Installing? || s.main.Idle?))
  }

  lemma {:induction false} StaysThreaded(s: State, acts: seq<Action>)
    requires |s.threads| > 1 && Threaded(s) && AllInside(acts)
    ensures Threaded(Exec(s, acts))
    decreases |acts|
  {
    if acts != [] {
      assert Inside(acts[0]) && AllInside(acts[1..]);
      StaysThreaded(Next(s, acts[0]), acts[1..]);
    }
  }

  lemma {:induction false} ExecMore(s: State, a: seq<Action>, b: seq<Action>)
    requires |s.threads| > 1
    ensures Exec(s, a + b) == Exec(Exec(s, a), b)
  {
    hide EndsIn;
    EndsInMore(s, a, b);
  }

  lemma Queues(s: State, c: ClientId, acts: seq<Action>)
    requires |s.threads| > 1 && s.main == Idle && c !in s.queue
    ensures Exec(s, [Enqueue(c)] + acts) == Exec(s.(queue := [c] + s.queue), acts)
  {
    assert ([Enqueue(c)] + acts)[1..] == acts;
    assert Step(s, Enqueue(c)) == Some(s.(queue := [c] + s.queue));
    hide Step;
  }

  lemma Handles(s: State)
    requires |s.threads| > 1 && s.main == Idle && s.queue != []
    ensures Exec(s, [Handle]).main ==
      if |s.queue| < 2 * |s.threads| then (if s.active then Stopping(0) else Serving) else if s.active then Sharing(0) else Starting(0)
  {
    var s2 := HandleStep(s).value;
    assert [Handle][1..] == [] && Step(s, Handle) == Some(s2) && Exec(s2, []) == s2;
  }

  function FourThenHandle(): seq<Action> {
    [Enqueue(0)] + ([Enqueue(1)] + ([Enqueue(2)] + ([Enqueue(3)] + [Handle])))
  }

  lemma FourShared()
    ensures Exec(InitState(2), FourThenHandle()).main == Starting(0)
  {
    hide Exec;
    var s := InitState(2);
    Queues(s, 0, [Enqueue(1)] + ([Enqueue(2)] + ([Enqueue(3)] + [Handle])));
    var s1 := s.(queue := [0] + s.queue);
    Queues(s1, 1, [Enqueue(2)] + ([Enqueue(3)] + [Handle]));
    var s2 := s1.(queue := [1] + s1.queue);
    Queues(s2, 2, [Enqueue(3)] + [Handle]);
    var s3 := s2.(queue := [2] + s2.queue);
    Queues(s3, 3, [Handle]);
    Handles(s3.(queue := [3] + s3.queue));
  }

  /** After a round of four clients on two threads, a single client makes the main thread take the mutexes. */
  lemma SomeStop() returns (acts: seq<Action>)
    ensures StopsNext(Exec(InitState(2), acts))
  {
    hide Exec, FourThenHandle;
    FourShared();
    var start, last := FourThenHandle(), [Enqueue(0)] + [Handle];
    var s0 := InitState(2);
    var s := Exec(s0, start);
    RoundCanEnd(2, start);
    var more :| AllInside(more) && var t := Exec(s, more); t.main == Idle && t.queue == [];
    StaysThreaded(s, more);
    var t := Exec(s, more);
    assert t.main == Idle && t.queue == [];
    Queues(t, 0, [Handle]);
    Handles(t.(queue := [0] + t.queue));
    ExecMore(s0, start, more);
    ExecMore(s0, start + more, last);
    acts := start + more + last;
  }

  lemma LeadFair(lead: seq<Action>, part: seq<Action>, n: nat)
    requires AllInside(lead) && Fair(part, n)
    ensures Fair(lead + part, n)
  {
    assert forall a :: a in part ==> a in lead + part;
  }

  lemma LeadIn(s: State, lead: seq<Action>, parts: seq<seq<Action>>)
    requires |s.threads| > 1 && parts != [] && !EndsIn(s, lead) && !EndsIn(Exec(s, lead), Concat(parts))
    ensures !EndsIn(s, Concat(parts[0 := lead + parts[0]]))
  {
    hide EndsIn;
    EndsInMore(s, lead, Concat(parts));
    var led := parts[0 := lead + parts[0]];
    assert led[1..] == parts[1..];
    assert Concat(led) == lead + parts[0] + Concat(parts[1..]) == lead + Concat(parts);
  }

  /**
   Unless the main thread waits for a mutex, the round ends in every run, in whatever order the threads act: it
   takes at most `3 * q + 4 * n + 11` stretches in each of which every thread acts, for `n` I/O threads and
   `q` clients.
   */
  lemma RoundEnds(n: nat, acts: seq<Action>, parts: seq<seq<Action>>)
    requires 1 < n && Exec(InitState(n), acts).main != Idle && !StopsNext(Exec(InitState(n), acts))
    requires forall i :: 0 <= i < |parts| ==> Fair(parts[i], n)
    requires |parts| >= 3 * |Exec(InitState(n), acts).queue| + 4 * n + 11
    ensures EndsIn(Exec(InitState(n), acts), Concat(parts))
  {
    InitInv(n);
    ExecKeeps(InitState(n), acts);
    var s := Exec(InitState(n), acts);
    hide Inv, EndsIn;
    CourseEnds(s, parts, n, |s.queue|, |s.queue| + 2 * n + 3);
  }
}
