/**
 File events of the event loop (ae.c) and three of its kernel interfaces (ae_epoll.c, ae_kqueue.c,
 ae_select.c): registration masks, the largest registered descriptor, and the kernel's interest sets.

 Kernel calls succeed when they are legal: epoll refuses to add a descriptor twice, and to modify or
 delete one it does not know.
 */
module FileEvents {
  const FD_SETSIZE: nat := 1024

  /** AE_READABLE, AE_WRITABLE and AE_BARRIER. */
  datatype Mask = Mask(r: bool, w: bool, b: bool)

  const AE_NONE := Mask(false, false, false)

  function Or(a: Mask, b: Mask): Mask {
    Mask(a.r || b.r, a.w || b.w, a.b || b.b)
  }

  function AndNot(a: Mask, b: Mask): Mask {
    Mask(a.r && !b.r, a.w && !b.w, a.b && !b.b)
  }

  datatype Kind = Reading | Writing

  /** A registration: its mask, and the handlers for reading and writing. */
  datatype FileEvent = FileEvent(mask: Mask, rproc: nat, wproc: nat)

  /** The kernel's side: descriptors with their interest, filters, or two descriptor sets. */
  datatype Api =
    | Epoll(known: map<nat, (bool, bool)>)
    | Kqueue(rfilters: set<nat>, wfilters: set<nat>)
    | Select(rfds: set<nat>, wfds: set<nat>)

  function Reads(api: Api, fd: nat): bool {
    match api
    case Epoll(known) => fd in known && known[fd].0
    case Kqueue(rfilters, _) => fd in rfilters
    case Select(rfds, _) => fd in rfds
  }

  function Writes(api: Api, fd: nat): bool {
    match api
    case Epoll(known) => fd in known && known[fd].1
    case Kqueue(_, wfilters) => fd in wfilters
    case Select(_, wfds) => fd in wfds
  }

  function MaskOf(events: seq<FileEvent>, fd: nat): Mask {
    if fd < |events| then events[fd].mask else AE_NONE
  }

  /** The kernel waits for exactly what is registered, and epoll knows exactly the registered descriptors. */
  ghost predicate Agrees(events: seq<FileEvent>, api: Api) {
    forall fd: nat ::
      && (Reads(api, fd) <==> MaskOf(events, fd).r)
      && (Writes(api, fd) <==> MaskOf(events, fd).w)
      && (api.Epoll? ==> (fd in api.known <==> MaskOf(events, fd) != AE_NONE))
  }

  /** `maxfd` is the largest registered descriptor, or -1. */
  ghost predicate MaxOK(events: seq<FileEvent>, maxfd: int) {
    && -1 <= maxfd < |events|
    && (maxfd >= 0 ==> events[maxfd].mask != AE_NONE)
    && (forall fd :: maxfd < fd < |events| ==> events[fd].mask == AE_NONE)
  }

  ghost predicate LoopOK(events: seq<FileEvent>, maxfd: int, api: Api) {
    MaxOK(events, maxfd) && Agrees(events, api)
  }

  /** What adding to a registration does to `maxfd` is right exactly when something is registered then. */
  lemma CreateMaxIff(events: seq<FileEvent>, maxfd: int, fd: nat, e: FileEvent)
    requires MaxOK(events, maxfd) && fd < |events| && (events[fd].mask != AE_NONE ==> e.mask != AE_NONE)
    ensures MaxOK(events[fd := e], if fd > maxfd then fd else maxfd) <==> fd <= maxfd || e.mask != AE_NONE
  {
    var events2 := events[fd := e];
    if fd > maxfd && e.mask == AE_NONE { assert events2[fd].mask == AE_NONE; }
  }

  /** The kernel's interest in `fd` is now `m`, and nothing else changed; epoll knows `fd` or does not. */
  ghost predicate Changed(api: Api, api2: Api, fd: nat, m: Mask, known: bool) {
    && (api.Epoll? <==> api2.Epoll?) && (api.Kqueue? <==> api2.Kqueue?)
    && Reads(api2, fd) == m.r && Writes(api2, fd) == m.w
    && (api2.Epoll? ==> (fd in api2.known <==> known))
    && forall f: nat :: f != fd ==>
         && Reads(api2, f) == Reads(api, f) && Writes(api2, f) == Writes(api, f)
         && (api.Epoll? ==> (f in api2.known <==> f in api.known))
  }

  class EventLoop {
    var events: seq<FileEvent>
    var maxfd: int
    var api: Api

    constructor (setsize: nat, api: Api)
      requires api == Epoll(map[]) || api == Kqueue({}, {}) || api == Select({}, {})
      ensures Valid() && |events| == setsize && this.api == api && maxfd == -1
    {
      events := seq(setsize, i => FileEvent(AE_NONE, 0, 0));
      maxfd := -1;
      this.api := api;
    }

    ghost predicate Valid()
      reads this
    {
      LoopOK(events, maxfd, api)
    }

    // The kernel.

    method EpollAdd(fd: nat, interest: (bool, bool))
      requires api.Epoll? && fd !in api.known
      modifies this`api
      ensures api == Epoll(old(api).known[fd := interest])
    {
      api := Epoll(api.known[fd := interest]);
    }

    method EpollMod(fd: nat, interest: (bool, bool))
      requires api.Epoll? && fd in api.known
      modifies this`api
      ensures api == Epoll(old(api).known[fd := interest])
    {
      api := Epoll(api.known[fd := interest]);
    }

    method EpollDel(fd: nat)
      requires api.Epoll? && fd in api.known
      modifies this`api
      ensures api == Epoll(old(api).known - {fd})
    {
      api := Epoll(api.known - {fd});
    }

    /** aeApiAddEvent of the three interfaces. */
    method ApiAddEvent(fd: nat, mask: Mask)
      requires Valid() && fd < |events|
      modifies this`api
      ensures Changed(old(api), api, fd, Or(mask, events[fd].mask), true)
    {
      match api {
        case Epoll(known) =>
          var merged := Or(mask, events[fd].mask);
          KnownIff(events, maxfd, api, fd);
          if events[fd].mask == AE_NONE { EpollAdd(fd, (merged.r, merged.w)); } else { EpollMod(fd, (merged.r, merged.w)); }
        case Kqueue(rfilters, wfilters) =>
          KnownIff(events, maxfd, api, fd);
          api := Kqueue(if mask.r then rfilters + {fd} else rfilters, if mask.w then wfilters + {fd} else wfilters);
        case Select(rfds, wfds) =>
          KnownIff(events, maxfd, api, fd);
          api := Select(if mask.r then rfds + {fd} else rfds, if mask.w then wfds + {fd} else wfds);
      }
    }

    /** aeApiDelEvent of the three interfaces. */
    method ApiDelEvent(fd: nat, delmask: Mask)
      requires Valid() && fd < |events| && events[fd].mask != AE_NONE
      modifies this`api
      ensures var m := AndNot(events[fd].mask, delmask); Changed(old(api), api, fd, m, m != AE_NONE)
    {
      KnownIff(events, maxfd, api, fd);
      match api {
        case Epoll(known) =>
          var left := AndNot(events[fd].mask, delmask);
          if left != AE_NONE { EpollMod(fd, (left.r, left.w)); } else { EpollDel(fd); }
        case Kqueue(rfilters, wfilters) =>
          api := Kqueue(if delmask.r then rfilters - {fd} else rfilters, if delmask.w then wfilters - {fd} else wfilters);
        case Select(rfds, wfds) =>
          api := Select(if delmask.r then rfds - {fd} else rfds, if delmask.w then wfds - {fd} else wfds);
      }
    }

    /**
     Adds to what is registered for `fd`. Adding nothing where nothing is registered breaks `maxfd` when
     `fd` is above it, and makes epoll know a descriptor without a registration.
     */
    method CreateFileEvent(fd: nat, mask: Mask, proc: nat) returns (ok: bool)
      requires Valid()
      modifies this
      ensures |events| == |old(events)| && (ok <==> fd < |events|)
      ensures Valid() <==> ok ==> events[fd].mask != AE_NONE || (fd <= old(maxfd) && !api.Epoll?)
      ensures ok ==> events == old(events)[fd := Registered(old(events)[fd], mask, proc)]
      ensures !ok ==> events == old(events)
    {
      hide LoopOK, Changed;
      if fd >= |events| { return false; }
      ghost var before := events;
      ghost var max, was := maxfd, api;
      ApiAddEvent(fd, mask);
      var fe := events[fd];
      fe := fe.(mask := Or(fe.mask, mask));
      if mask.r { fe := fe.(rproc := proc); }
      if mask.w { fe := fe.(wproc := proc); }
      events := events[fd := fe];
      if fd > maxfd { maxfd := fd; }
      ok := true;
      CreateIff(before, max, was, fd, mask, proc, api);
    }

    /** Takes away from what is registered for `fd`; the barrier goes with the writable event. */
    method DeleteFileEvent(fd: nat, mask: Mask)
      requires Valid()
      modifies this
      ensures Valid() && |events| == |old(events)|
      ensures fd < |events| ==> events[fd].mask == AndNot(old(events)[fd].mask, mask.(b := mask.b || mask.w))
      ensures events == if fd < |events| then old(events)[fd := old(events)[fd].(mask := events[fd].mask)] else old(events)
    {
      hide LoopOK, Changed;
      if fd >= |events| || events[fd].mask == AE_NONE { return; }
      ghost var before := events;
      ghost var max, was := maxfd, api;
      var m := mask.(b := mask.b || mask.w);
      ApiDelEvent(fd, m);
      MaxBound(before, max, was);
      events := events[fd := events[fd].(mask := AndNot(events[fd].mask, m))];
      if fd == maxfd && events[fd].mask == AE_NONE {
        var j := maxfd - 1;
        while j >= 0 && events[j].mask == AE_NONE
          invariant -1 <= j < maxfd && forall k :: j < k <= maxfd ==> events[k].mask == AE_NONE
        {
          j := j - 1;
        }
        maxfd := j;
      }
      DeleteOK(before, max, was, fd, m, api, maxfd);
    }

    /** A smaller or larger table, which must hold every registered descriptor; new memory holds `garbage`. */
    method ResizeSetSize(setsize: nat, garbage: nat -> FileEvent) returns (ok: bool)
      requires Valid()
      modifies this`events
      ensures Valid()
      ensures ok <==> setsize == |old(events)| || (maxfd < setsize && (api.Select? ==> setsize < FD_SETSIZE))
      ensures if ok then |events| == setsize else events == old(events)
      ensures forall fd: nat :: MaskOf(events, fd) == MaskOf(old(events), fd)
    {
      if setsize == |events| { return true; }
      if maxfd >= setsize { return false; }
      if api.Select? && setsize >= FD_SETSIZE { return false; }
      var kept := if setsize < |events| then setsize else |events|;
      var resized := events[..kept] + seq(setsize - kept, garbage);
      var i := maxfd + 1;
      while i < setsize
        invariant maxfd + 1 <= i <= setsize && |resized| == setsize
        invariant forall k :: 0 <= k <= maxfd ==> resized[k] == events[k]
        invariant forall k :: maxfd < k < i ==> resized[k].mask == AE_NONE
      {
        resized := resized[i := resized[i].(mask := AE_NONE)];
        i := i + 1;
      }
      assert forall fd: nat :: MaskOf(resized, fd) == MaskOf(events, fd);
      events := resized;
      ok := true;
    }

    /** What a handler may do: register and unregister descriptors in `touched`, in any order and number. */
    method Callback(touched: set<nat>)
      requires Valid()
      modifies this
      ensures Valid() && |events| == |old(events)| && forall f :: 0 <= f < |events| && f !in touched ==> events[f] == old(events[f])
    {
      hide LoopOK;
      var n: int := *;
      while n > 0
        invariant Valid() && |events| == |old(events)| && forall f :: 0 <= f < |events| && f !in touched ==> events[f] == old(events[f])
      {
        var create: bool, fd: nat, r: bool, w: bool, b: bool, proc: nat := *, *, *, *, *, *;
        if fd in touched {
          if create && (r || w || b) {
            var _ := CreateFileEvent(fd, Mask(r, w, b), proc);
          } else {
            DeleteFileEvent(fd, Mask(r, w, b));
          }
        }
        n := n - 1;
      }
    }

    /**
     The handlers of one fired descriptor. Each of the two events is handled at most once, and only if it
     fired; reading comes first, unless a barrier was registered: then writing never follows reading. When
     the handlers leave this descriptor alone, each event that fired and is registered is handled, except
     that a handler registered for both is called once.
     */
    method Dispatch(fd: nat, mask: Mask, touched: set<nat>) returns (calls: seq<Kind>)
      requires Valid() && fd < |events|
      modifies this
      ensures Valid() && |events| == |old(events)|
      ensures forall i, j :: 0 <= i < j < |calls| ==> calls[i] != calls[j]
      ensures forall c :: c in calls ==> if c == Reading then mask.r else mask.w
      ensures var m := old(events[fd].mask);
        var first := if m.b then Writing else Reading;
        && (forall i :: 0 < i < |calls| ==> calls[i] != first)
        && ((if m.b then m.w && mask.w else m.r && mask.r) ==> calls != [] && calls[0] == first)
      ensures fd !in touched ==>
        var e := old(events[fd]);
        && (Reading in calls <==> e.mask.r && mask.r && !(e.rproc == e.wproc && e.mask.b && e.mask.w && mask.w))
        && (Writing in calls <==> e.mask.w && mask.w && !(e.rproc == e.wproc && !e.mask.b && e.mask.r && mask.r))
    {
      hide LoopOK;
      calls := [];
      var invert := events[fd].mask.b;
      if !invert && events[fd].mask.r && mask.r {
        Callback(touched);
        calls := calls + [Reading];
      }
      if events[fd].mask.w && mask.w {
        if calls == [] || events[fd].wproc != events[fd].rproc {
          Callback(touched);
          calls := calls + [Writing];
        }
      }
      if invert && events[fd].mask.r && mask.r {
        if calls == [] || events[fd].wproc != events[fd].rproc {
          Callback(touched);
          calls := calls + [Reading];
        }
      }
    }
  }

  lemma KnownIff(events: seq<FileEvent>, maxfd: int, api: Api, fd: nat)
    requires LoopOK(events, maxfd, api) && fd < |events|
    ensures api.Epoll? ==> (fd in api.known <==> events[fd].mask != AE_NONE)
    ensures Reads(api, fd) == events[fd].mask.r && Writes(api, fd) == events[fd].mask.w
  {
    assert MaskOf(events, fd) == events[fd].mask;
  }

  /** The registration after adding `mask` with its handler. */
  function Registered(e: FileEvent, mask: Mask, proc: nat): FileEvent {
    FileEvent(Or(e.mask, mask), if mask.r then proc else e.rproc, if mask.w then proc else e.wproc)
  }

  lemma MaxBound(events: seq<FileEvent>, maxfd: int, api: Api)
    requires LoopOK(events, maxfd, api)
    ensures -1 <= maxfd < |events| && forall fd :: maxfd < fd < |events| ==> events[fd].mask == AE_NONE
    ensures maxfd >= 0 ==> events[maxfd].mask != AE_NONE
  {
  }

  /** A changed registration and a changed kernel agree. */
  lemma ChangedAgrees(events: seq<FileEvent>, api: Api, api2: Api, fd: nat, e: FileEvent)
    requires Agrees(events, api) && fd < |events| && Changed(api, api2, fd, e.mask, e.mask != AE_NONE)
    ensures Agrees(events[fd := e], api2)
  {
    forall f: nat
      ensures var m := MaskOf(events[fd := e], f);
        && (Reads(api2, f) <==> m.r) && (Writes(api2, f) <==> m.w) && (api2.Epoll? ==> (f in api2.known <==> m != AE_NONE))
    {
      assert f != fd ==> MaskOf(events[fd := e], f) == MaskOf(events, f);
    }
  }

  /** After adding, the kernel agrees again exactly when something is registered or it is not epoll. */
  lemma CreateAgreesIff(events: seq<FileEvent>, api: Api, api2: Api, fd: nat, e: FileEvent)
    requires Agrees(events, api) && fd < |events| && Changed(api, api2, fd, e.mask, true)
    ensures Agrees(events[fd := e], api2) <==> e.mask != AE_NONE || !api2.Epoll?
  {
    if e.mask == AE_NONE && api2.Epoll? {
      assert MaskOf(events[fd := e], fd) == AE_NONE && fd in api2.known;
    } else {
      ChangedAgrees(events, api, api2, fd, e);
    }
  }

  lemma CreateIff(events: seq<FileEvent>, maxfd: int, api: Api, fd: nat, mask: Mask, proc: nat, api2: Api)
    requires LoopOK(events, maxfd, api) && fd < |events|
    requires Changed(api, api2, fd, Or(mask, events[fd].mask), true)
    ensures var e := Registered(events[fd], mask, proc);
      LoopOK(events[fd := e], if fd > maxfd then fd else maxfd, api2) <==> e.mask != AE_NONE || (fd <= maxfd && !api2.Epoll?)
  {
    hide Agrees, Changed;
    var e := Registered(events[fd], mask, proc);
    assert Or(mask, events[fd].mask) == e.mask;
    CreateAgreesIff(events, api, api2, fd, e);
    CreateMaxIff(events, maxfd, fd, e);
  }

  lemma DeleteOK(events: seq<FileEvent>, maxfd: int, api: Api, fd: nat, mask: Mask, api2: Api, maxfd2: int)
    requires LoopOK(events, maxfd, api) && fd < |events| && events[fd].mask != AE_NONE
    requires var m := AndNot(events[fd].mask, mask); Changed(api, api2, fd, m, m != AE_NONE)
    requires MaxOK(events[fd := events[fd].(mask := AndNot(events[fd].mask, mask))], maxfd2)
    ensures LoopOK(events[fd := events[fd].(mask := AndNot(events[fd].mask, mask))], maxfd2, api2)
  {
    hide Agrees, Changed;
    ChangedAgrees(events, api, api2, fd, events[fd].(mask := AndNot(events[fd].mask, mask)));
  }
}
