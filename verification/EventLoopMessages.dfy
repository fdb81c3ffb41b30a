/** That a port which has been notified stays on its descriptor until its socket closes, and
    so that whoever gives tokens back is known there; and with that, whole messages. */
module EventLoopMessages {
  import opened Descriptors
  import opened EventLoop
  import opened EventLoopSafety
  import opened EventLoopLedger

  // ---- Each kind of change.

  /** Whatever is recorded, it is posted only to ports of the descriptor. */
  lemma RecordServes(sockets: map<SocketId, Socket>, heap: map<Ptr, Info>, log: seq<Record>, r: Record)
    requires AllServed(sockets, heap, log)
    requires r.Notified? ==> r.ptr in heap && r.ports <= heap[r.ptr].desc.Listeners()
    ensures AllServed(sockets, heap, log + [r])
  {
    forall ptr: Ptr, p: Port | Received(log + [r], ptr, p) > 0
      ensures (ptr in heap && p in heap[ptr].desc.Listeners()) || Retired(sockets, p)
    {
      OneMoreRecord(log, r, ptr, p);
    }
  }

  /** The descriptor loses at most a port whose socket is closed. */
  lemma HeapServes(sockets: map<SocketId, Socket>, heap: map<Ptr, Info>, log: seq<Record>, ptr: Ptr, i: Info)
    requires AllServed(sockets, heap, log)
    requires ptr in heap ==>
               forall p :: p in heap[ptr].desc.Listeners() ==> p in i.desc.Listeners() || Retired(sockets, p)
    ensures AllServed(sockets, heap[ptr := i], log)
  {
    hide Retired;
  }

  lemma FreeServes(sockets: map<SocketId, Socket>, heap: map<Ptr, Info>, log: seq<Record>, ptr: Ptr)
    requires AllServed(sockets, heap, log) && ptr in heap
    requires forall p :: p in heap[ptr].desc.Listeners() ==> Retired(sockets, p)
    ensures AllServed(sockets, heap - {ptr}, log)
  {
    hide Retired;
  }

  /** Sockets keep their ports, and a closed one is not opened again. */
  ghost predicate Onwards(sockets: map<SocketId, Socket>, sockets': map<SocketId, Socket>) {
    forall id :: id in sockets ==>
                   id in sockets' && sockets'[id].port == sockets[id].port && (sockets[id].fd < 0 ==> sockets'[id].fd < 0)
  }

  lemma SocketsServe(sockets: map<SocketId, Socket>, sockets': map<SocketId, Socket>, heap: map<Ptr, Info>, log: seq<Record>)
    requires AllServed(sockets, heap, log) && Onwards(sockets, sockets')
    ensures AllServed(sockets', heap, log)
  {
    forall p | Retired(sockets, p) ensures Retired(sockets', p) {
      var id :| id in sockets && sockets[id].port == p && sockets[id].fd < 0;
      assert id in sockets';
    }
  }

  lemma NotifyAllListeners(d: Descriptor)
    ensures d.NotifyAll().Listeners() == d.Listeners()
  {
  }

  /** Bringing epoll in step posts, if at all, to the ports the descriptor has then. */
  lemma ReplaceServes(sockets: map<SocketId, Socket>, st: State, ptr: Ptr, i: Info, ok: bool)
    requires ptr in st.heap && AllServed(sockets, st.heap, st.log)
    requires forall p :: p in st.heap[ptr].desc.Listeners() ==> p in i.desc.Listeners() || Retired(sockets, p)
    ensures var st' := Replace(st, ptr, i, ok); AllServed(sockets, st'.heap, st'.log)
  {
    ReplaceEffect(st, ptr, i, ok);
    NotifyAllListeners(i.desc);
    HeapServes(sockets, st.heap, st.log, ptr, i);
    hide Replace, AllServed, Retired;
    var told, i' := Notified(ptr, i.desc.Listeners(), {CloseEvent}), Info(i.fd, i.desc.NotifyAll());
    RecordServes(sockets, st.heap[ptr := i], st.log, told);
    HeapServes(sockets, st.heap[ptr := i], st.log + [told], ptr, i');
    assert st.heap[ptr := i][ptr := i'] == st.heap[ptr := i'];
  }

  // ---- Events and commands.

  lemma NextListeners(i: Info)
    requires Sane(i) && i.desc.CurrentMask() != {}
    ensures var (desc, port) := i.desc.NextNotify(); desc.Listeners() == i.desc.Listeners() && port in i.desc.Listeners()
  {
    NextNotifySane(i);
  }

  lemma ReadyServes(st: State, e: PollEvent)
    requires Inv(st) && e.Ready? && e.ptr in st.heap && Sane(st.heap[e.ptr]) && st.heap[e.ptr].desc.CurrentMask() != {}
    ensures var st' := HandleReady(st, e); AllServed(st.sockets, st'.heap, st'.log)
  {
    hide Consistent, AllConserved, AllServed, EventMask, Replace, Retired;
    var i, mask := st.heap[e.ptr], EventMask(e.bits);
    if ErrorEvent in mask {
      var r := Notified(e.ptr, i.desc.Listeners(), mask);
      NotifyAllListeners(i.desc);
      RecordServes(st.sockets, st.heap, st.log, r);
      ReplaceServes(st.sockets, st.(log := st.log + [r]), e.ptr, Info(i.fd, i.desc.NotifyAll()), e.addOk);
    } else if mask != {} {
      var (desc, port) := i.desc.NextNotify();
      NextListeners(i);
      ReplaceServes(st.sockets, st, e.ptr, Info(i.fd, desc), e.addOk);
      var st1 := Replace(st, e.ptr, Info(i.fd, desc), e.addOk);
      ReplaceEffect(st, e.ptr, Info(i.fd, desc), e.addOk);
      NotifyAllListeners(desc);
      RecordServes(st.sockets, st1.heap, st1.log, Notified(e.ptr, {port}, mask));
    }
  }

  lemma ReturnListeners(d: Descriptor, port: Port, count: nat)
    requires d.Knows(port)
    ensures d.ReturnTokens(port, count).Listeners() == d.Listeners()
  {
  }

  lemma SetMaskListeners(d: Descriptor, port: Port, mask: Mask)
    requires d.One? ==> d.one.port == NO_PORT || d.one.port == port
    ensures d.Listeners() <= d.SetPortAndMask(port, mask).Listeners()
  {
  }

  lemma ReturnServes(st: State, ptr: Ptr, msg: Message)
    requires Meets(st, ptr, msg) && AllServed(st.sockets, st.heap, st.log) && msg.command.ReturnToken?
    ensures var st' := HandleCommand(st, ptr, msg); AllServed(st'.sockets, st'.heap, st'.log)
  {
    hide Consistent, AllServed, Replace, Retired;
    var i, r := st.heap[ptr], Returned(ptr, msg.port, msg.command.count);
    var i' := Info(i.fd, i.desc.ReturnTokens(msg.port, msg.command.count));
    ReturnListeners(i.desc, msg.port, msg.command.count);
    RecordServes(st.sockets, st.heap, st.log, r);
    ReplaceServes(st.sockets, st.(log := st.log + [r]), ptr, i', msg.addOk);
    ReplaceSockets(st.(log := st.log + [r]), ptr, i', msg.addOk);
  }

  lemma ReplaceSockets(st: State, ptr: Ptr, i: Info, ok: bool)
    requires ptr in st.heap
    ensures Replace(st, ptr, i, ok).sockets == st.sockets
  {
  }

  lemma SetMaskServes(st: State, ptr: Ptr, msg: Message)
    requires Meets(st, ptr, msg) && AllServed(st.sockets, st.heap, st.log) && msg.command.SetEventMask?
    ensures var st' := HandleCommand(st, ptr, msg); AllServed(st'.sockets, st'.heap, st'.log)
  {
    OwnPort(st, ptr, msg);
    hide Consistent, AllServed, Replace, Retired;
    var i := st.heap[ptr];
    var i' := Info(i.fd, i.desc.SetPortAndMask(msg.port, msg.command.mask));
    var st1 := st.(log := if i.desc.Knows(msg.port) then st.log else st.log + [Added(ptr, msg.port)]);
    SetMaskListeners(i.desc, msg.port, msg.command.mask);
    RecordServes(st.sockets, st.heap, st.log, Added(ptr, msg.port));
    ReplaceServes(st.sockets, st1, ptr, i', msg.addOk);
    ReplaceSockets(st1, ptr, i', msg.addOk);
  }

  lemma ClosePortListeners(i: Info, port: Port)
    requires i.desc.One? ==> i.desc.Listeners() <= {port}
    ensures forall p :: p in i.desc.Listeners() ==> p in ClosePort(i, port).desc.Listeners() || p == port
  {
  }

  ghost function CloseSocket(sockets: map<SocketId, Socket>, id: SocketId): map<SocketId, Socket>
    requires id in sockets
  {
    sockets[id := sockets[id].(fd := -1)]
  }

  /** A socket that closes retires its port. */
  lemma PortRetires(st: State, ptr: Ptr, msg: Message)
    requires Meets(st, ptr, msg)
    ensures msg.id in st.sockets && Onwards(st.sockets, CloseSocket(st.sockets, msg.id))
    ensures msg.port != NO_PORT ==> Retired(CloseSocket(st.sockets, msg.id), msg.port)
  {
    hide Consistent;
    var sockets := CloseSocket(st.sockets, msg.id);
    assert sockets[msg.id].port == st.sockets[msg.id].port && sockets[msg.id].fd < 0;
  }

  lemma OnlyOwnPort(st: State, ptr: Ptr, msg: Message)
    requires Meets(st, ptr, msg)
    ensures NO_PORT !in st.heap[ptr].desc.Listeners()
    ensures st.heap[ptr].desc.One? || LastCloser(st.sockets, msg.id) ==>
              forall p :: p in st.heap[ptr].desc.Listeners() ==> p == msg.port
  {
    MeetsFacts(st, ptr, msg);
    if st.heap[ptr].desc.One? || LastCloser(st.sockets, msg.id) {
      SoleListener(st, ptr, msg);
    }
  }

  /** What is posted on the way out goes to ports that stay. */
  lemma WithdrawServes(sockets: map<SocketId, Socket>, st: State, ptr: Ptr, port: Port, ok: bool)
    requires AllServed(sockets, st.heap, st.log) && ptr in st.heap && NO_PORT !in st.heap[ptr].desc.Listeners()
    requires port != NO_PORT ==> Retired(sockets, port)
    requires st.heap[ptr].desc.One? ==> forall p :: p in st.heap[ptr].desc.Listeners() ==> p == port
    ensures var st1, r := Replace(st, ptr, ClosePort(st.heap[ptr], port), ok), Told(port, {DestroyedEvent});
            AllServed(sockets, st1.heap, st1.log + [r])
  {
    hide AllServed, Replace, Retired;
    var i' := ClosePort(st.heap[ptr], port);
    var st1 := Replace(st, ptr, i', ok);
    ClosePortListeners(st.heap[ptr], port);
    hide ClosePort;
    ReplaceServes(sockets, st, ptr, i', ok);
    RecordServes(sockets, st1.heap, st1.log, Told(port, {DestroyedEvent}));
  }

  lemma WithdrawLeaves(st: State, ptr: Ptr, port: Port, ok: bool)
    requires ptr in st.heap
    ensures var st1 := Replace(st, ptr, ClosePort(st.heap[ptr], port), ok);
            && st1.sockets == st.sockets && ptr in st1.heap
            && st1.heap[ptr].desc.Listeners() <= st.heap[ptr].desc.Listeners()
  {
    var i' := ClosePort(st.heap[ptr], port);
    ReplaceSockets(st, ptr, i', ok);
    ReplaceEffect(st, ptr, i', ok);
    NotifyAllListeners(i'.desc);
    LeftListeners(st.heap[ptr], port);
    hide ClosePort, Replace;
  }

  /** Closing takes a port off, and retires it. */
  lemma CloseServes(st: State, ptr: Ptr, msg: Message)
    requires Meets(st, ptr, msg) && AllServed(st.sockets, st.heap, st.log) && msg.command.Close?
    ensures var st' := HandleCommand(st, ptr, msg); AllServed(st'.sockets, st'.heap, st'.log)
  {
    CloseEffect(st, ptr, msg);
    hide Consistent, Meets, AllServed, Replace, Retired, HandleCommand, ClosePort;
    PortRetires(st, ptr, msg);
    OnlyOwnPort(st, ptr, msg);
    WithdrawLeaves(st, ptr, msg.port, msg.addOk);
    var sockets := CloseSocket(st.sockets, msg.id);
    SocketsServe(st.sockets, sockets, st.heap, st.log);
    WithdrawServes(sockets, st, ptr, msg.port, msg.addOk);
    if st.heap[ptr].desc.One? || LastCloser(st.sockets, msg.id) {
      var st1 := Replace(st, ptr, ClosePort(st.heap[ptr], msg.port), msg.addOk);
      FreeServes(sockets, st1.heap, st1.log + [Told(msg.port, {DestroyedEvent})], ptr);
    }
  }

  lemma LeftListeners(i: Info, port: Port)
    ensures ClosePort(i, port).desc.Listeners() <= i.desc.Listeners()
  {
  }

  lemma CommandServes(st: State, ptr: Ptr, msg: Message)
    requires Meets(st, ptr, msg) && AllServed(st.sockets, st.heap, st.log)
    ensures var st' := HandleCommand(st, ptr, msg); AllServed(st'.sockets, st'.heap, st'.log)
  {
    hide Consistent, AllServed;
    match msg.command
    case ShutdownRead =>
    case ShutdownWrite =>
    case Close => CloseServes(st, ptr, msg);
    case ReturnToken(count) => ReturnServes(st, ptr, msg);
    case SetEventMask(mask) => SetMaskServes(st, ptr, msg);
  }

  // ---- Messages.

  /** A descriptor just created has no ports. */
  lemma PreparedConserves(st: State, msg: Message)
    requires Inv(st) && msg.SocketMessage? && msg.id in st.sockets && st.sockets[msg.id].fd >= 0
    ensures var st' := Prepared(st, msg).0; AllConserved(st'.heap, st'.log) && st'.log == st.log
  {
    hide AllServed;
  }

  lemma PreparedServes(st: State, msg: Message)
    requires Inv(st) && msg.SocketMessage? && msg.id in st.sockets && st.sockets[msg.id].fd >= 0
    ensures var st' := Prepared(st, msg).0; AllServed(st'.sockets, st'.heap, st'.log)
  {
    AddressIsFresh(st);
    hide Consistent, AllConserved, AllServed, Retired;
    var st', s := Prepared(st, msg).0, st.sockets[msg.id];
    SocketsServe(st.sockets, st'.sockets, st.heap, st.log);
    if s.fd !in st.socketMap {
      HeapServes(st'.sockets, st.heap, st.log, st.nextPtr, st'.heap[st.nextPtr]);
    }
  }

  lemma AddressIsFresh(st: State)
    requires Consistent(st)
    ensures st.nextPtr !in st.heap
  {
  }

  /** A disciplined message meets its descriptor with everything in order. */
  lemma MessageMeets(st: State, msg: Message)
    requires Inv(st) && msg.SocketMessage? && Disciplined(st, msg) && st.sockets[msg.id].fd >= 0
    ensures var (st', ptr) := Prepared(st, msg); Inv(st') && Meets(st', ptr, msg)
  {
    PreparedKeeps(st, msg);
    PreparedConserves(st, msg);
    PreparedServes(st, msg);
    hide Consistent, AllConserved, AllServed;
    var (st', ptr) := Prepared(st, msg);
    if msg.command.ReturnToken? {
      var count := msg.command.count;
      var q :| GivenBack(st.log, q, msg.port) + count <= Received(st.log, q, msg.port);
      NotifiedIsKnown(st, msg.id, q);
      ReturnFits(st', ptr, msg.port, count);
    }
  }

  /** Handling any disciplined message keeps the invariant. */
  lemma MessageKeepsInv(st: State, msg: Message)
    requires Inv(st) && Disciplined(st, msg)
    ensures Inv(HandleMessage(st, msg))
  {
    if msg.SocketMessage? && st.sockets[msg.id].fd >= 0 {
      MessageMeets(st, msg);
      var (st', ptr) := Prepared(st, msg);
      hide Consistent, AllConserved, AllServed, Meets, Disciplined, Prepared;
      CommandKeeps(st', ptr, msg);
      CommandConserves(st', ptr, msg);
      CommandServes(st', ptr, msg);
    }
  }
}
