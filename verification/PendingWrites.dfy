/**
 Who will write a client's pending replies (networking.c): the queue of clients to write to before the
 event loop sleeps, the write handlers, and the protection that takes a client's handlers away.

 What sockets do is a parameter: how much of the output a write takes and whether it then fails, and
 whether a handler can be registered.
 */
module PendingWrites {
  import opened Basics

  /** What happens when a client is written to: bytes taken, an error after that, a handler that can be registered. */
  datatype Net = Net(takes: nat, fails: bool, registers: bool)

  function Left(net: Net, pending: nat): nat {
    if net.takes < pending then pending - net.takes else 0
  }

  /**
   The fields that decide whether and how a client is written to. `scripted` is CLIENT_LUA or
   CLIENT_MODULE, `muted` CLIENT_REPLY_OFF or CLIENT_REPLY_SKIP. A replica that is not `online`, or
   waits for an acknowledgement, does not receive writes yet. `readable` and `writable` are its
   registered file events, and `pending` measures its unsent output.
   */
  class Client {
    const fd: int
    const scripted: bool
    var muted: bool
    var master: bool
    var forceReply: bool
    var replica: bool
    var online: bool
    var pendingWrite: bool
    var isProtected: bool
    var closeAsap: bool
    var closeAfterReply: bool
    var readable: bool
    var writable: bool
    var pending: nat

    constructor (fd: int, scripted: bool)
      ensures this.fd == fd && this.scripted == scripted && pending == 0 && !pendingWrite && !replica
    {
      this.fd, this.scripted := fd, scripted;
      muted, master, forceReply, replica, online := false, false, false, false, false;
      pendingWrite, isProtected, closeAsap, closeAfterReply := false, false, false, false;
      readable, writable, pending := fd > 0, false, 0;
    }

    /** A client on a socket that is not a replica, with output to send. */
    predicate Owed()
      reads this
    {
      fd > 0 && !scripted && !replica && pending > 0
    }

    /** Its output will be written or is given up, or waits for the protection to end. */
    predicate Served()
      reads this
    {
      Owed() ==> pendingWrite || writable || closeAsap || isProtected
    }

    /** A write sends what the socket takes; a failure, or being drained when closing, gives the client up. */
    method WriteTo(handlerInstalled: bool, net: Net) returns (ok: bool)
      modifies this`pending, this`closeAsap, this`writable
      ensures pending == Left(net, old(pending))
      ensures ok <==> if pending > 0 then !net.fails else !closeAfterReply
      ensures closeAsap == (old(closeAsap) || !ok)
      ensures writable == (old(writable) && !(handlerInstalled && pending == 0))
    {
      pending := if net.takes < pending then pending - net.takes else 0;
      if pending > 0 && net.fails {
        closeAsap := true;
        return false;
      }
      if pending == 0 {
        if handlerInstalled { writable := false; }
        if closeAfterReply {
          closeAsap := true;
          return false;
        }
      }
      ok := true;
    }

    /** Registers the write handler, or gives the client up. */
    method CreateWriteEvent(net: Net)
      modifies this`closeAsap, this`writable
      ensures closeAsap == (old(closeAsap) || !net.registers) && writable == (old(writable) || net.registers)
    {
      if net.registers { writable := true; } else { closeAsap := true; }
    }
  }

  /**
   A client with `p0` units of output after it was written to and asked to be told when it can go on. After
   a failed write the handler is still registered `anyway` or not.
   */
  predicate Written(net: Net, anyway: bool, closing: bool, p0: nat, c0: bool, w0: bool, p: nat, c: bool, w: bool) {
    && p == Left(net, p0)
    && c == (c0 || if p > 0 then net.fails || !net.registers else closing)
    && w == (w0 || (p > 0 && net.registers && (anyway || !net.fails)))
  }

  class Server {
    ghost var clients: set<Client>
    var queue: seq<Client>

    constructor ()
      ensures Valid() && clients == {}
    {
      clients, queue := {}, [];
    }

    /** The flag says who is in the queue, and nobody is in it twice. */
    ghost predicate Consistent()
      reads this, clients
    {
      && Distinct(queue)
      && (forall c :: c in queue ==> c in clients)
      && (forall c :: c in clients ==> (c.pendingWrite <==> c in queue))
    }

    /** Between two steps of the event loop no reply is stranded. */
    ghost predicate Valid()
      reads this, clients
    {
      Consistent() && forall c :: c in clients ==> c.Served()
    }

    /** A new connection. */
    method Accept(c: Client)
      requires Valid() && c !in clients && c.pending == 0 && !c.pendingWrite
      modifies this`clients
      ensures Valid() && clients == old(clients) + {c}
    {
      clients := clients + {c};
    }

    /** Commands and other parts of the server change these flags at any time. */
    method SetFlags(c: Client, muted: bool, master: bool, forceReply: bool, closeAfterReply: bool)
      requires Valid() && c in clients
      modifies c`muted, c`master, c`forceReply, c`closeAfterReply
      ensures Valid()
      ensures c.muted == muted && c.master == master && c.forceReply == forceReply && c.closeAfterReply == closeAfterReply
    {
      c.muted, c.master, c.forceReply, c.closeAfterReply := muted, master, forceReply, closeAfterReply;
    }

    /** A client becomes a replica, or comes online as one. */
    method BecomeReplica(c: Client, online: bool)
      requires Valid() && c in clients
      modifies c`replica, c`online
      ensures Valid() && c.replica && c.online == online
    {
      c.replica, c.online := true, online;
    }

    method InstallWriteHandler(c: Client)
      requires Consistent() && c in clients
      modifies c`pendingWrite, this`queue
      ensures Consistent()
      ensures c.pendingWrite == (old(c.pendingWrite) || !c.replica || c.online)
    {
      if !c.pendingWrite && (!c.replica || c.online) {
        c.pendingWrite := true;
        queue := [c] + queue;
      }
    }

    /** Whether a reply may be queued for the client; if so, it will be written. */
    method PrepareClientToWrite(c: Client) returns (ok: bool)
      requires Valid() && c in clients
      modifies c`pendingWrite, this`queue
      ensures Valid()
      ensures ok == (c.scripted || (!c.muted && (!c.master || c.forceReply) && c.fd > 0))
      ensures ok && !c.scripted && !c.replica ==> c.pendingWrite || c.writable || c.closeAsap || c.isProtected
    {
      if c.scripted { return true; }
      if c.muted { return false; }
      if c.master && !c.forceReply { return false; }
      if c.fd <= 0 { return false; }
      if c.pending == 0 { InstallWriteHandler(c); }
      ok := true;
    }

    /** Queues `n` units of output. */
    method AddReply(c: Client, n: nat)
      requires Valid() && c in clients
      modifies c`pendingWrite, c`pending, this`queue
      ensures Valid()
      ensures c.pending == old(c.pending) +
        if (c.scripted || (!c.muted && (!c.master || c.forceReply) && c.fd > 0)) && !c.closeAfterReply then n else 0
    {
      var ok := PrepareClientToWrite(c);
      if ok && !c.closeAfterReply { c.pending := c.pending + n; }
    }

    /** The write handler. */
    method SendReplyToClient(c: Client, net: Net)
      requires Valid() && c in clients
      modifies c`pending, c`closeAsap, c`writable
      ensures Valid() && c.pending == Left(net, old(c.pending))
      ensures c.writable == (old(c.writable) && c.pending > 0)
      ensures c.closeAsap == (old(c.closeAsap) || if c.pending > 0 then net.fails else c.closeAfterReply)
    {
      var _ := c.WriteTo(true, net);
    }

    /**
     Before the event loop sleeps: each queued client is written to, and gets a handler for the rest. A
     client is given up exactly when its write fails, no handler can be registered, or it was to be closed
     when drained. Protected clients are left alone.
     */
    method HandleClientsWithPendingWrites(net: Client -> Net)
      requires Valid()
      modifies this`queue, clients`pendingWrite, clients`pending, clients`closeAsap, clients`writable
      ensures Valid() && queue == []
      ensures forall c :: c in clients && c.Owed() ==> c.writable || c.closeAsap || c.isProtected
      ensures forall c :: c in clients ==>
        if c in old(queue) && !c.isProtected
        then Written(net(c), false, c.closeAfterReply, old(c.pending), old(c.closeAsap), old(c.writable), c.pending, c.closeAsap, c.writable)
        else c.pending == old(c.pending) && c.closeAsap == old(c.closeAsap) && c.writable == old(c.writable)
    {
      while queue != []
        invariant Valid() && forall c :: c in queue ==> c in old(queue)
        invariant forall c :: c in clients ==>
          if c in old(queue) && c !in queue && !c.isProtected
          then Written(net(c), false, c.closeAfterReply, old(c.pending), old(c.closeAsap), old(c.writable), c.pending, c.closeAsap, c.writable)
          else c.pending == old(c.pending) && c.closeAsap == old(c.closeAsap) && c.writable == old(c.writable)
        decreases |queue|
      {
        hide Written;
        var c := queue[0];
        assert c in clients && c in old(queue);
        ServeFirst(c, net(c));
      }
    }

    /** The first client of the queue, unless it is protected. */
    method ServeFirst(c: Client, net: Net)
      requires Valid() && queue != [] && c == queue[0]
      modifies this`queue, c`pendingWrite, c`pending, c`closeAsap, c`writable
      ensures Valid() && queue == old(queue)[1..] && c !in queue
      ensures if c.isProtected then c.pending == old(c.pending) && c.closeAsap == old(c.closeAsap) && c.writable == old(c.writable)
        else Written(net, false, c.closeAfterReply, old(c.pending), old(c.closeAsap), old(c.writable), c.pending, c.closeAsap, c.writable)
    {
      assert c in clients && forall d :: d in clients && d != c ==> d.Served();
      c.pendingWrite := false;
      queue := queue[1..];
      if !c.isProtected {
        var ok := c.WriteTo(false, net);
        if ok && c.pending > 0 { c.CreateWriteEvent(net); }
      }
    }

    /**
     The threaded batch, whose writes ThreadedWrites accounts for: the flags are cleared first, then
     each client is written to by some thread, then handlers are registered, for protected clients too.
     */
    method HandleClientsWithPendingWritesUsingThreads(net: Client -> Net)
      requires Valid()
      modifies this`queue, clients`pendingWrite, clients`pending, clients`closeAsap, clients`writable
      ensures Valid() && queue == []
      ensures forall c :: c in clients && c.Owed() ==> c.writable || c.closeAsap || c.isProtected
      ensures forall c :: c in clients ==>
        if c in old(queue)
        then Written(net(c), true, c.closeAfterReply, old(c.pending), old(c.closeAsap), old(c.writable), c.pending, c.closeAsap, c.writable)
        else c.pending == old(c.pending) && c.closeAsap == old(c.closeAsap) && c.writable == old(c.writable)
    {
      ClearFlags();
      WriteAll(net);
      InstallAll(net);
      queue := [];
    }

    method ClearFlags()
      requires Consistent()
      modifies clients`pendingWrite
      ensures forall c :: c in clients ==> !c.pendingWrite
    {
      var i := 0;
      while i < |queue|
        invariant i <= |queue| && forall c :: c in clients ==> (c.pendingWrite <==> c in queue[i..])
      {
        queue[i].pendingWrite := false;
        i := i + 1;
      }
    }

    /** Each queued client is written to once. */
    method WriteAll(net: Client -> Net)
      requires Distinct(queue) && forall c :: c in queue ==> c in clients
      modifies clients`pending, clients`closeAsap, clients`writable
      ensures forall c :: c in queue ==>
        && c.pending == Left(net(c), old(c.pending)) && c.writable == old(c.writable)
        && c.closeAsap == (old(c.closeAsap) || if c.pending > 0 then net(c).fails else c.closeAfterReply)
      ensures forall c :: c in clients && c !in queue ==>
        c.pending == old(c.pending) && c.closeAsap == old(c.closeAsap) && c.writable == old(c.writable)
    {
      var i := 0;
      while i < |queue|
        invariant i <= |queue|
        invariant forall c :: c in queue[..i] ==>
          && c.pending == Left(net(c), old(c.pending)) && c.writable == old(c.writable)
          && c.closeAsap == (old(c.closeAsap) || if c.pending > 0 then net(c).fails else c.closeAfterReply)
        invariant forall c :: c in clients && c !in queue[..i] ==>
          c.pending == old(c.pending) && c.closeAsap == old(c.closeAsap) && c.writable == old(c.writable)
      {
        assert queue[i] in queue && queue[i] !in queue[..i] && queue[..i + 1] == queue[..i] + [queue[i]];
        var _ := queue[i].WriteTo(false, net(queue[i]));
        i := i + 1;
      }
      assert queue[..|queue|] == queue;
    }

    /** Each queued client that has something left gets a handler. */
    method InstallAll(net: Client -> Net)
      requires Distinct(queue) && forall c :: c in queue ==> c in clients
      modifies clients`closeAsap, clients`writable
      ensures forall c :: c in queue ==>
        && c.writable == (old(c.writable) || (c.pending > 0 && net(c).registers))
        && c.closeAsap == (old(c.closeAsap) || (c.pending > 0 && !net(c).registers))
      ensures forall c :: c in clients && c !in queue ==> c.closeAsap == old(c.closeAsap) && c.writable == old(c.writable)
    {
      var i := 0;
      while i < |queue|
        invariant i <= |queue|
        invariant forall c :: c in queue[..i] ==>
          && c.writable == (old(c.writable) || (c.pending > 0 && net(c).registers))
          && c.closeAsap == (old(c.closeAsap) || (c.pending > 0 && !net(c).registers))
        invariant forall c :: c in clients && c !in queue[..i] ==> c.closeAsap == old(c.closeAsap) && c.writable == old(c.writable)
      {
        assert queue[i] in queue && queue[i] !in queue[..i] && queue[..i + 1] == queue[..i] + [queue[i]];
        if queue[i].pending > 0 { queue[i].CreateWriteEvent(net(queue[i])); }
        i := i + 1;
      }
      assert queue[..|queue|] == queue;
    }

    /** The client's handlers are taken away while something it depends on is going on. */
    method ProtectClient(c: Client)
      requires Valid() && c in clients
      modifies c`isProtected, c`readable, c`writable
      ensures Valid() && c.isProtected && !c.readable && !c.writable
    {
      c.isProtected, c.readable, c.writable := true, false, false;
    }

    /** Output that was queued meanwhile is scheduled again. */
    method UnprotectClient(c: Client)
      requires Valid() && c in clients
      modifies c`isProtected, c`readable, c`pendingWrite, this`queue
      ensures Valid() && !c.isProtected && (old(c.isProtected) ==> c.readable)
    {
      if c.isProtected {
        c.isProtected := false;
        c.readable := true;
        if c.pending > 0 { InstallWriteHandler(c); }
      }
    }
  }
}
