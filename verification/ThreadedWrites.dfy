/**
 Threaded writes (networking.c): the main thread shares the clients with pending replies among `n`
 I/O threads, publishes the counts, and waits for every count to be zero again. Between rounds it can
 stop the threads by holding their mutexes.

 A state machine whose actions are single steps of the threads, in any interleaving. A step accesses at
 most one count, mutex or list that another thread may be using.
 */
module ThreadedWrites {
  import opened Basics

  type ClientId = nat

  /** Where an I/O thread is: spinning, at its mutex, holding it, `k` clients into its list, list emptied. */
  datatype Pc = Spin | AtMutex | Holding | Working(k: nat) | Emptied

  datatype Owner = Free | ByMain | ByWorker

  /**
   What belongs to one I/O thread: its io_threads_list, io_threads_pending and io_threads_mutex, and
   where it is. `wrote` records the clients it called writeToClient for in this round.
   */
  datatype Thread = Thread(list: seq<ClientId>, pending: nat, mutex: Owner, pc: Pc, wrote: seq<ClientId>)

  /** Where the main thread is, with its loop variables. */
  datatype MainPc =
    | Idle
    | Starting(j: nat)
    | Stopping(j: nat)
    | Serving
    | Sharing(i: nat)
    | Publishing(j: nat)
    | Waiting(j: nat, sum: nat)
    | Installing(i: nat)

  /**
   `queue` is server.clients_pending_write and `protected` the clients with CLIENT_PROTECTED. `round` and
   `guarded` record the queue and the protected clients of the current or last round, `direct` the
   clients the main thread wrote to itself, and `failed` that an assertion failed.
   */
  datatype State = State(
    main: MainPc, active: bool, queue: seq<ClientId>, protected: set<ClientId>, threads: seq<Thread>,
    round: seq<ClientId>, guarded: set<ClientId>, direct: seq<ClientId>, failed: bool)

  datatype Action = Enqueue(c: ClientId) | Protect(c: ClientId) | Unprotect(c: ClientId) | Handle | Main | Worker(id: nat)

  function InitState(n: nat): State {
    State(Idle, false, [], {}, seq(n, i => Thread([], 0, ByMain, Spin, [])), [], {}, [], false)
  }

  /** The clients that are not protected, in order. */
  function Unprotected(queue: seq<ClientId>, protected: set<ClientId>): seq<ClientId> {
    if queue == [] then []
    else (if queue[0] in protected then [] else [queue[0]]) + Unprotected(queue[1..], protected)
  }

  /** The share of thread `j`: every `n`-th client from position `j` on. */
  function Share(queue: seq<ClientId>, j: nat, n: nat): seq<ClientId>
    requires n > 0
  {
    if queue == [] then []
    else
      var m := |queue| - 1;
      Share(queue[..m], j, n) + if m % n == j then [queue[m]] else []
  }

  /** One action of the main thread; None when it must wait. */
  function MainStep(s: State): (r: Option<State>)
    requires |s.threads| > 1
    ensures r.Some? ==> |r.value.threads| == |s.threads|
  {
    var n := |s.threads|;
    match s.main
    case Idle => None
    case Starting(j) =>
      if j < n then Some(s.(threads := s.threads[j := s.threads[j].(mutex := Free)], main := Starting(j + 1)))
      else Some(s.(active := true, main := Sharing(0)))
    case Stopping(j) =>
      if j >= n then Some(s.(active := false, main := Serving))
      else if s.threads[j].mutex == Free then
        Some(s.(threads := s.threads[j := s.threads[j].(mutex := ByMain)], main := Stopping(j + 1)))
      else None
    case Serving =>
      if s.queue == [] then Some(s.(main := Idle))
      else Some(s.(direct := s.direct + if s.queue[0] in s.protected then [] else [s.queue[0]], queue := s.queue[1..]))
    case Sharing(i) =>
      if i >= |s.queue| then Some(s.(main := Publishing(0)))
      else
        var j := i % n;
        var t := s.threads[j];
        Some(s.(threads := s.threads[j := t.(list := t.list + [s.queue[i]])], main := Sharing(i + 1)))
    case Publishing(j) =>
      if j >= n then Some(s.(main := Waiting(0, 0)))
      else Some(s.(threads := s.threads[j := s.threads[j].(pending := |s.threads[j].list|)], main := Publishing(j + 1)))
    case Waiting(j, sum) =>
      if j < n then Some(s.(main := Waiting(j + 1, sum + s.threads[j].pending)))
      else if sum == 0 then Some(s.(main := Installing(0)))
      else Some(s.(main := Waiting(0, 0)))
    case Installing(i) =>
      if i < |s.queue| then Some(s.(main := Installing(i + 1)))
      else Some(s.(queue := [], main := Idle))
  }

  /** One action of an I/O thread; None when it must wait. */
  function ThreadStep(t: Thread): Option<Thread> {
    match t.pc
    case Spin => Some(t.(pc := if t.pending != 0 then Working(0) else AtMutex))
    case AtMutex => if t.mutex == Free then Some(t.(mutex := ByWorker, pc := Holding)) else None
    case Holding => Some(t.(mutex := Free, pc := Spin))
    case Working(k) =>
      if k < |t.list| then Some(t.(wrote := t.wrote + [t.list[k]], pc := Working(k + 1)))
      else Some(t.(list := [], pc := Emptied))
    case Emptied => Some(t.(pending := 0, pc := Spin))
  }

  /** handleClientsWithPendingWritesUsingThreads begins: few clients are served directly. */
  function HandleStep(s: State): (r: Option<State>)
    requires |s.threads| > 1
    ensures r.Some? ==> |r.value.threads| == |s.threads|
  {
    if s.main != Idle || s.queue == [] then None
    else
      var threads := seq(|s.threads|, i requires 0 <= i < |s.threads| => s.threads[i].(wrote := []));
      var round := s.(threads := threads, round := s.queue, guarded := s.protected, direct := []);
      if |s.queue| < 2 * |s.threads| then Some(round.(main := if s.active then Stopping(0) else Serving))
      else Some(round.(main := if s.active then Sharing(0) else Starting(0)))
  }

  function Step(s: State, a: Action): (r: Option<State>)
    requires |s.threads| > 1
    ensures r.Some? ==> |r.value.threads| == |s.threads|
  {
    match a
    case Enqueue(c) => if s.main == Idle && c !in s.queue then Some(s.(queue := [c] + s.queue)) else None
    case Protect(c) => if s.main == Idle then Some(s.(protected := s.protected + {c})) else None
    case Unprotect(c) => if s.main == Idle then Some(s.(protected := s.protected - {c})) else None
    case Handle => HandleStep(s)
    case Main => MainStep(s)
    case Worker(id) =>
      if id >= |s.threads| then None
      else
        var t := ThreadStep(s.threads[id]);
        if t.None? then None
        else
          // serverAssert(io_threads_pending[id] != 0)
          var bad := s.threads[id].pc.Working? && s.threads[id].pending == 0;
          Some(s.(threads := s.threads[id := t.value], failed := s.failed || bad))
  }

  predicate MainHolds(main: MainPc, active: bool, j: nat) {
    match main
    case Starting(i) => j >= i
    case Stopping(i) => j < i
    case _ => !active
  }

  /** The count of thread `j` has been published in this round. */
  predicate Published(main: MainPc, j: nat) {
    (main.Publishing? && j < main.j) || main.Waiting? || main.Installing?
  }

  predicate Busy(pc: Pc) {
    pc.Working? || pc.Emptied?
  }

  /** The list of thread `j`, and what it has written, at each point of a round. */
  ghost predicate ListOK(main: MainPc, queue: seq<ClientId>, last: seq<ClientId>, n: nat, j: nat, t: Thread)
    requires n > 0
  {
    var share := Share(queue, j, n);
    match main
    case Idle => t.list == [] && t.wrote == Share(last, j, n)
    case Sharing(i) => i <= |queue| && t.list == Share(queue[..i], j, n) && t.wrote == []
    case Publishing(i) => if j >= i then t.list == share && t.wrote == [] else WrittenOK(share, t)
    case Waiting(_, _) => WrittenOK(share, t)
    case Installing(_) => WrittenOK(share, t)
    case _ => t.list == [] && t.wrote == []
  }

  /** A thread with `share` to write, some way into it. */
  ghost predicate WrittenOK(share: seq<ClientId>, t: Thread) {
    if t.pending == 0 then t.list == [] && t.wrote == share
    else match t.pc
      case Working(k) => t.list == share && k <= |share| && t.wrote == share[..k]
      case Emptied => t.list == [] && t.wrote == share
      case _ => t.list == share && t.wrote == []
  }

  ghost predicate ThreadOK(main: MainPc, active: bool, queue: seq<ClientId>, last: seq<ClientId>, n: nat, j: nat, t: Thread)
    requires n > 0
  {
    && (t.mutex == ByMain <==> MainHolds(main, active, j))
    && (t.mutex == ByWorker <==> t.pc == Holding)
    && (Busy(t.pc) ==> t.pending != 0)
    && (t.pending != 0 ==> Published(main, j) && !main.Installing?)
    && (main.Waiting? && main.sum == 0 && j < main.j ==> t.pending == 0)
    && ListOK(main, queue, last, n, j, t)
  }

  /** The conditions on the main thread and its flag. */
  predicate FlagOK(main: MainPc, active: bool) {
    && (main.Starting? || main.Serving? ==> !active)
    && (main.Stopping? || main.Sharing? || main.Publishing? || main.Waiting? || main.Installing? ==> active)
  }

  /** Few clients: the main thread serves the round itself. */
  predicate Small(s: State) {
    |s.round| < 2 * |s.threads|
  }

  /** The clients of the round that are left to the I/O threads. */
  function Last(s: State): seq<ClientId> {
    if Small(s) then [] else s.round
  }

  /** The round served by the main thread alone, or shared and not touched by it. */
  predicate QueueOK(s: State) {
    match s.main
    case Idle => s.direct == if Small(s) then Unprotected(s.round, s.guarded) else []
    case Serving => Small(s) && s.guarded == s.protected && s.direct + Unprotected(s.queue, s.protected) == Unprotected(s.round, s.protected)
    case _ => s.direct == [] && s.queue == s.round && s.guarded == s.protected && (Small(s) <==> s.main.Stopping?)
  }

  ghost predicate Inv(s: State) {
    && |s.threads| > 1 && QueueOK(s) && Distinct(s.queue) && Distinct(s.round) && !s.failed && FlagOK(s.main, s.active)
    && (forall j :: 0 <= j < |s.threads| ==> ThreadOK(s.main, s.active, s.queue, Last(s), |s.threads|, j, s.threads[j]))
  }

  lemma ShareSnoc(queue: seq<ClientId>, i: nat, j: nat, n: nat)
    requires n > 0 && i < |queue|
    ensures Share(queue[..i + 1], j, n) == Share(queue[..i], j, n) + if i % n == j then [queue[i]] else []
  {
    assert queue[..i + 1][..i] == queue[..i];
  }

  lemma ShareNone(j: nat, n: nat)
    requires n > 0
    ensures Share([], j, n) == []
  {
  }

  lemma InitInv(n: nat)
    requires n > 1
    ensures Inv(InitState(n))
  {
  }

  lemma RoundKeepsThread(s: State, j: nat)
    requires |s.threads| > 1 && FlagOK(s.main, s.active) && QueueOK(s) && j < |s.threads| && MainStep(s).Some?
    requires ThreadOK(s.main, s.active, s.queue, Last(s), |s.threads|, j, s.threads[j])
    requires s.main.Sharing? || s.main.Publishing? || s.main.Waiting? || s.main.Installing?
    ensures var s2 := MainStep(s).value;
      ThreadOK(s2.main, s2.active, s2.queue, Last(s2), |s.threads|, j, s2.threads[j])
  {
    hide Share;
    assert s.queue[..|s.queue|] == s.queue;
    if s.main.Sharing? && s.main.i < |s.queue| { ShareSnoc(s.queue, s.main.i, j, |s.threads|); }
  }

  lemma MainKeepsThread(s: State, j: nat)
    requires |s.threads| > 1 && FlagOK(s.main, s.active) && QueueOK(s) && j < |s.threads| && MainStep(s).Some?
    requires ThreadOK(s.main, s.active, s.queue, Last(s), |s.threads|, j, s.threads[j])
    requires s.main.Starting? || s.main.Stopping? || s.main.Serving?
    ensures var s2 := MainStep(s).value;
      ThreadOK(s2.main, s2.active, s2.queue, Last(s2), |s.threads|, j, s2.threads[j])
  {
    hide Share;
    ShareNone(j, |s.threads|);
    assert s.queue[..0] == [] && s.direct + [] == s.direct;
  }

  lemma ThreadKeeps(main: MainPc, active: bool, queue: seq<ClientId>, last: seq<ClientId>, n: nat, j: nat, t: Thread)
    requires n > 0 && ThreadOK(main, active, queue, last, n, j, t) && ThreadStep(t).Some?
    ensures ThreadOK(main, active, queue, last, n, j, ThreadStep(t).value)
  {
    hide Share;
  }

  /** Every action of every thread keeps the invariant. */
  lemma StepKeeps(s: State, a: Action)
    requires Inv(s) && Step(s, a).Some?
    ensures Inv(Step(s, a).value)
  {
    hide ThreadStep, ThreadOK, Share;
    var n := |s.threads|;
    match a {
      case Enqueue(c) =>
        forall j | 0 <= j < n ensures ThreadOK(s.main, s.active, [c] + s.queue, Last(s), n, j, s.threads[j]) {
          RequeueKeeps(s.active, s.queue, [c] + s.queue, Last(s), n, j, s.threads[j]);
        }
      case Handle =>
        var s2 := HandleStep(s).value;
        forall j | 0 <= j < n ensures ThreadOK(s2.main, s2.active, s2.queue, Last(s2), n, j, s2.threads[j]) {
          RoundKeeps(s2.main, s.active, s.queue, Last(s), Last(s2), n, j, s.threads[j]);
        }
      case Main => MainKeeps(s);
      case Protect(_) =>
      case Unprotect(_) =>
      case Worker(id) =>
        ThreadKeeps(s.main, s.active, s.queue, Last(s), n, id, s.threads[id]);
        WorkingHasCount(s.main, s.active, s.queue, Last(s), n, id, s.threads[id]);
    }
  }

  lemma MainKeeps(s: State)
    requires Inv(s) && MainStep(s).Some?
    ensures Inv(MainStep(s).value)
  {
    hide ThreadOK, Share;
    forall j | 0 <= j < |s.threads|
      ensures var s2 := MainStep(s).value; ThreadOK(s2.main, s2.active, s2.queue, Last(s2), |s.threads|, j, s2.threads[j])
    {
      if s.main.Starting? || s.main.Stopping? || s.main.Serving? { MainKeepsThread(s, j); } else { RoundKeepsThread(s, j); }
    }
  }

  lemma RequeueKeeps(active: bool, queue: seq<ClientId>, queue2: seq<ClientId>, last: seq<ClientId>, n: nat, j: nat, t: Thread)
    requires n > 0 && ThreadOK(Idle, active, queue, last, n, j, t)
    ensures ThreadOK(Idle, active, queue2, last, n, j, t)
  {
  }

  lemma RoundKeeps(main: MainPc, active: bool, queue: seq<ClientId>, last0: seq<ClientId>, last: seq<ClientId>, n: nat, j: nat, t: Thread)
    requires n > 0 && ThreadOK(Idle, active, queue, last0, n, j, t) && j < n
    requires if active then main == Stopping(0) || main == Sharing(0) else main == Serving || main == Starting(0)
    ensures ThreadOK(main, active, queue, last, n, j, t.(wrote := []))
  {
    ShareNone(j, n);
    assert queue[..0] == [];
  }

  lemma WorkingHasCount(main: MainPc, active: bool, queue: seq<ClientId>, last: seq<ClientId>, n: nat, j: nat, t: Thread)
    requires n > 0 && ThreadOK(main, active, queue, last, n, j, t)
    ensures t.pc.Working? ==> t.pending != 0
  {
  }

  // -------------------------------------------------------------- whole runs

  /** A run: an action that is not enabled is skipped. */
  function Exec(s: State, acts: seq<Action>): (r: State)
    requires |s.threads| > 1
    ensures |r.threads| == |s.threads|
    decreases |acts|
  {
    if acts == [] then s
    else
      var t := Step(s, acts[0]);
      if t.None? then Exec(s, acts[1..]) else Exec(t.value, acts[1..])
  }

  lemma {:induction false} ExecKeeps(s: State, acts: seq<Action>)
    requires Inv(s)
    ensures Inv(Exec(s, acts))
    decreases |acts|
  {
    hide Inv;
    InvSized(s);
    if acts != [] {
      if Step(s, acts[0]).Some? {
        StepKeeps(s, acts[0]);
        ExecKeeps(Step(s, acts[0]).value, acts[1..]);
      } else {
        ExecKeeps(s, acts[1..]);
      }
    }
  }

  lemma InvSized(s: State)
    requires Inv(s)
    ensures |s.threads| > 1
  {
  }

  /** The main thread may use the list of thread `j`, or the clients in it. */
  predicate MainUses(main: MainPc, j: nat) {
    main.Idle? || main.Serving? || main.Sharing? || (main.Publishing? && j >= main.j) || main.Installing?
  }

  /**
   In every reachable state: no assertion has failed; an I/O thread is at work only when the main
   thread keeps away from its list and its clients; a stopped thread is not at work and its list is
   empty; and no two threads wait for each other.
   */
  lemma Safety(n: nat, acts: seq<Action>, j: nat)
    requires 1 < n && j < n
    ensures var s := Exec(InitState(n), acts);
      var t := s.threads[j];
      && !s.failed
      && (Busy(t.pc) ==> !MainUses(s.main, j) && t.mutex != ByMain && t.pending != 0)
      && (MainUses(s.main, j) ==> t.pending == 0)
      && (s.main.Installing? ==> t.list == [] && t.pending == 0)
      && (!s.active && !s.main.Starting? ==> !Busy(t.pc) && t.pending == 0 && t.list == [] && t.mutex == ByMain)
      && (t.pending != 0 ==> ThreadStep(t).Some?)
      && (s.main == Stopping(j) && MainStep(s).None? ==> t.pc == Holding && ThreadStep(t).value.mutex == Free)
  {
    hide Share;
    InitInv(n);
    ExecKeeps(InitState(n), acts);
  }

  /** How many actions of its own a thread with a count is away from clearing it. */
  function Left(t: Thread): nat
    requires t.pc.Working? ==> t.pc.k <= |t.list|
  {
    match t.pc
    case AtMutex => |t.list| + 5
    case Holding => |t.list| + 4
    case Spin => |t.list| + 3
    case Working(k) => |t.list| - k + 2
    case Emptied => 1
  }

  /** The wait ends: a thread whose count is not zero can always act, and each action brings it nearer. */
  lemma Progress(n: nat, acts: seq<Action>, j: nat)
    requires 1 < n && j < n && Exec(InitState(n), acts).threads[j].pending != 0
    ensures var t := Exec(InitState(n), acts).threads[j];
      && (t.pc.Working? ==> t.pc.k <= |t.list|)
      && ThreadStep(t).Some?
      && var t2 := ThreadStep(t).value; t2.pending == 0 || ((t2.pc.Working? ==> t2.pc.k <= |t2.list|) && Left(t2) < Left(t))
  {
    hide Share;
    InitInv(n);
    ExecKeeps(InitState(n), acts);
  }

  /** How often `c` occurs in `s`. */
  function Times(c: ClientId, s: seq<ClientId>): nat {
    multiset(s)[c]
  }

  /**
   When a round is over, a client of it has been written to exactly once: in a small round by the main
   thread, unless it was protected, which leaves it unwritten; in any other by thread `k % n`, where `k`
   is its position, protected or not.
   */
  lemma EachWrittenOnce(n: nat, acts: seq<Action>, k: nat)
    requires 1 < n && Exec(InitState(n), acts).main == Idle && k < |Exec(InitState(n), acts).round|
    ensures var s := Exec(InitState(n), acts);
      var c := s.round[k];
      && Times(c, s.direct) == (if |s.round| < 2 * n && c !in s.guarded then 1 else 0)
      && forall j :: 0 <= j < n ==> Times(c, s.threads[j].wrote) == if |s.round| >= 2 * n && j == k % n then 1 else 0
  {
    InitInv(n);
    ExecKeeps(InitState(n), acts);
    var s := Exec(InitState(n), acts);
    OccursOnce(s.round, k);
    UnprotectedTimes(s.round, s.guarded, s.round[k]);
    forall j | 0 <= j < n
      ensures s.threads[j].wrote == Share(Last(s), j, n)
      ensures Times(s.round[k], Share(s.round, j, n)) == if j == k % n then 1 else 0
    {
      assert ThreadOK(s.main, s.active, s.queue, Last(s), n, j, s.threads[j]);
      ShareCounts(s.round, j, n, k);
    }
  }

  lemma {:induction false} UnprotectedTimes(queue: seq<ClientId>, protected: set<ClientId>, c: ClientId)
    ensures Times(c, Unprotected(queue, protected)) == if c in protected then 0 else Times(c, queue)
  {
    if queue != [] {
      UnprotectedTimes(queue[1..], protected, c);
      assert queue == [queue[0]] + queue[1..];
    }
  }

  lemma {:induction false} OccursOnce(queue: seq<ClientId>, k: nat)
    requires k < |queue| && Distinct(queue)
    ensures Times(queue[k], queue) == 1
  {
    assert queue == queue[..k] + [queue[k]] + queue[k + 1..];
  }

  lemma TimesAppend(c: ClientId, a: seq<ClientId>, b: seq<ClientId>)
    ensures Times(c, a + b) == Times(c, a) + Times(c, b)
  {
  }

  lemma {:induction false} ShareCounts(queue: seq<ClientId>, j: nat, n: nat, k: nat)
    requires n > 0 && j < n && k < |queue| && Distinct(queue)
    ensures Times(queue[k], Share(queue, j, n)) == if j == k % n then 1 else 0
  {
    hide Times;
    var m := |queue| - 1;
    var init := queue[..m];
    TimesAppend(queue[k], Share(init, j, n), if m % n == j then [queue[m]] else []);
    TimesOne(queue[k], queue[m]);
    if k == m {
      ShareMisses(init, j, n, queue[m]);
    } else {
      ShareCounts(init, j, n, k);
    }
  }

  lemma TimesOne(c: ClientId, d: ClientId)
    ensures Times(c, [d]) == (if c == d then 1 else 0) && Times(c, []) == 0
  {
  }

  lemma {:induction false} ShareMisses(queue: seq<ClientId>, j: nat, n: nat, c: ClientId)
    requires n > 0 && c !in queue
    ensures Times(c, Share(queue, j, n)) == 0
  {
    if queue != [] { ShareMisses(queue[..|queue| - 1], j, n, c); }
  }
}
