/** What handling a message keeps of the loop's tables: descriptors in order, known to the
    sockets open on them, and registered with epoll as their masks say. */
module EventLoopSafety {
  import opened Descriptors
  import opened EventLoop

  // ---- Single descriptors: what each operation keeps.

  lemma BroadcastSane(i: Info)
    requires Sane(i) && i.desc.CurrentMask() != {}
    ensures Sane(Info(i.fd, i.desc.NotifyAll())) && i.desc.NotifyAll().Listeners() == i.desc.Listeners()
  {
    match i.desc
    case One(s) =>
    case Many(m) => NotifyAllCoherent(m);
  }

  lemma NextNotifySane(i: Info)
    requires Sane(i) && i.desc.CurrentMask() != {}
    ensures var (desc, port) := i.desc.NextNotify();
            && port != NO_PORT && port in i.desc.Listeners()
            && desc.Listeners() == i.desc.Listeners()
            && Sane(Info(i.fd, desc))
  {
    match i.desc
    case One(s) =>
    case Many(m) =>
      NextNotifyCoherent(m);
      assert m.ring[0] in m.ring;
  }

  lemma ReturnSane(i: Info, port: Port, count: nat)
    requires Sane(i) && i.desc.Knows(port) && port != NO_PORT && i.desc.Tokens(port) + count <= i.desc.Quota()
    ensures Sane(Info(i.fd, i.desc.ReturnTokens(port, count)))
    ensures i.desc.ReturnTokens(port, count).Listeners() == i.desc.Listeners()
  {
    match i.desc
    case One(s) =>
    case Many(m) => ApplyCoherent(m, Return(port, count));
  }

  lemma SetMaskSane(i: Info, port: Port, mask: Mask)
    requires Sane(i) && port != NO_PORT && (i.desc.One? ==> i.desc.one.port == NO_PORT || i.desc.one.port == port)
    ensures Sane(Info(i.fd, i.desc.SetPortAndMask(port, mask)))
    ensures i.desc.SetPortAndMask(port, mask).Listeners() <= i.desc.Listeners() + {port}
  {
    match i.desc
    case One(s) =>
    case Many(m) => ApplyCoherent(m, SetMask(port, mask == {InEvent}));
  }

  /** A removed port is gone; a single descriptor then asks for nothing. */
  lemma ClosePortSane(i: Info, port: Port)
    requires Sane(i) && i.desc.Many?
    ensures Sane(ClosePort(i, port)) && ClosePort(i, port).desc.Listeners() == i.desc.Listeners() - {port}
  {
    if port != NO_PORT {
      ApplyCoherent(i.desc.many, Remove(port));
    }
  }

  // ---- Epoll stays in step.

  ghost predicate SameKind(i: Info, j: Info) {
    i.fd == j.fd && i.desc.IsListeningSocket() == j.desc.IsListeningSocket()
  }

  ghost predicate SameElsewhere(epoll: map<Fd, Registration>, epoll': map<Fd, Registration>, fd: Fd) {
    forall other :: other != fd ==> (other in epoll' <==> other in epoll) && (other in epoll ==> epoll'[other] == epoll[other])
  }

  /** `st'` differs from `st` only in one descriptor, its registration, and the log. */
  ghost predicate OnlyAt(st: State, st': State, ptr: Ptr)
    requires ptr in st.heap
  {
    && ptr in st'.heap
    && st' == st.(heap := st.heap[ptr := st'.heap[ptr]], epoll := st'.epoll, log := st'.log, addsOk := st'.addsOk)
    && st'.heap[ptr].fd == st.heap[ptr].fd
    && SameElsewhere(st.epoll, st'.epoll, st.heap[ptr].fd)
    && (st'.addsOk ==> st.addsOk)
  }

  /** The result of `AddToEpoll` on an unregistered descriptor that asks for something:
      in agreement, whether or not epoll accepts it. */
  lemma AddAgrees(st: State, ptr: Ptr, ok: bool)
    requires ptr in st.heap && Sane(st.heap[ptr]) && st.heap[ptr].desc.CurrentMask() != {}
    requires st.heap[ptr].fd !in st.epoll
    ensures var i, st' := st.heap[ptr], AddToEpoll(st, ptr, ok);
            && OnlyAt(st, st', ptr) && Agrees(st'.heap[ptr], ptr, st'.epoll, st'.addsOk)
            && SameKind(st'.heap[ptr], i) && Sane(st'.heap[ptr])
            && st'.heap[ptr].desc.Listeners() == i.desc.Listeners()
  {
    var i := st.heap[ptr];
    if ok {
      hide Sane;
      assert st.heap[ptr := i] == st.heap;
    } else {
      BroadcastSane(i);
      hide Sane;
      assert SameKind(Info(i.fd, i.desc.NotifyAll()), i);
    }
  }

  lemma StillAgrees(st: State, ptr: Ptr, i: Info, ok: bool)
    requires ptr in st.heap && Agrees(st.heap[ptr], ptr, st.epoll, st.addsOk) && SameKind(i, st.heap[ptr])
    requires i.desc.CurrentMask() == {} || i.desc.CurrentMask() == st.heap[ptr].desc.CurrentMask()
    ensures var st' := Replace(st, ptr, i, ok);
            OnlyAt(st, st', ptr) && Agrees(i, ptr, st'.epoll, st'.addsOk) && st'.heap[ptr] == i
  {
    if i.desc.CurrentMask() == st.heap[ptr].desc.CurrentMask() {
      assert Interest(i.desc) == Interest(st.heap[ptr].desc);
    }
  }

  lemma ReAddAgrees(st: State, ptr: Ptr, i: Info, ok: bool)
    requires ptr in st.heap && Agrees(st.heap[ptr], ptr, st.epoll, st.addsOk) && SameKind(i, st.heap[ptr]) && Sane(i)
    requires i.desc.CurrentMask() != {} && i.desc.CurrentMask() != st.heap[ptr].desc.CurrentMask()
    ensures var st' := Replace(st, ptr, i, ok);
            && OnlyAt(st, st', ptr) && Agrees(st'.heap[ptr], ptr, st'.epoll, st'.addsOk)
            && SameKind(st'.heap[ptr], i) && Sane(st'.heap[ptr])
            && st'.heap[ptr].desc.Listeners() == i.desc.Listeners()
  {
    hide Sane, Interest;
    var bare := st.(heap := st.heap[ptr := i], epoll := st.epoll - {i.fd});
    var st' := Replace(st, ptr, i, ok);
    assert st' == AddToEpoll(bare, ptr, ok) by {
      if st.heap[ptr].desc.CurrentMask() == {} {
        assert st.epoll - {i.fd} == st.epoll;
      }
    }
    AddAgrees(bare, ptr, ok);
    assert bare.heap[ptr := st'.heap[ptr]] == st.heap[ptr := st'.heap[ptr]];
  }

  /** Replacing a descriptor's state and updating epoll leaves epoll in agreement,
      whether or not epoll accepts the descriptor. */
  lemma ReplaceAgrees(st: State, ptr: Ptr, i: Info, ok: bool)
    requires ptr in st.heap && Agrees(st.heap[ptr], ptr, st.epoll, st.addsOk) && SameKind(i, st.heap[ptr]) && Sane(i)
    ensures var st' := Replace(st, ptr, i, ok);
            && OnlyAt(st, st', ptr) && Agrees(st'.heap[ptr], ptr, st'.epoll, st'.addsOk)
            && SameKind(st'.heap[ptr], i) && Sane(st'.heap[ptr])
            && st'.heap[ptr].desc.Listeners() == i.desc.Listeners()
  {
    if i.desc.CurrentMask() != {} && st.heap[ptr].desc.CurrentMask() != i.desc.CurrentMask() {
      ReAddAgrees(st, ptr, i, ok);
    } else {
      StillAgrees(st, ptr, i, ok);
    }
  }

  // ---- A change confined to one descriptor keeps each part of the invariant.

  lemma TablesKept(st: State, st': State, ptr: Ptr)
    requires TablesOk(st.socketMap, st.heap, st.epoll, st.nextPtr) && ptr in st.heap && OnlyAt(st, st', ptr)
    ensures TablesOk(st'.socketMap, st'.heap, st'.epoll, st'.nextPtr)
  {
    forall fd | fd in st'.epoll ensures fd in st'.socketMap {
      assert fd != st.heap[ptr].fd ==> fd in st.epoll;
    }
  }

  lemma AgreeKept(st: State, st': State, ptr: Ptr)
    requires TablesOk(st.socketMap, st.heap, st.epoll, st.nextPtr) && AllAgree(st.heap, st.epoll, st.addsOk)
    requires ptr in st.heap && OnlyAt(st, st', ptr) && Agrees(st'.heap[ptr], ptr, st'.epoll, st'.addsOk)
    ensures AllAgree(st'.heap, st'.epoll, st'.addsOk)
  {
    forall q | q in st'.heap ensures Agrees(st'.heap[q], q, st'.epoll, st'.addsOk) {
      if q != ptr {
        assert Agrees(st.heap[q], q, st.epoll, st.addsOk);
        assert st.heap[q].fd != st.heap[ptr].fd;
      }
    }
  }

  lemma SaneKept(heap: map<Ptr, Info>, ptr: Ptr, i: Info)
    requires AllSane(heap) && Sane(i)
    ensures AllSane(heap[ptr := i])
  {
  }

  lemma MatchKept(sockets: map<SocketId, Socket>, heap: map<Ptr, Info>, ptr: Ptr, i: Info)
    requires AllMatch(sockets, heap) && SocketsMatch(sockets, i)
    ensures AllMatch(sockets, heap[ptr := i])
  {
  }

  lemma OnlyAtKeeps(st: State, st': State, ptr: Ptr)
    requires Consistent(st) && ptr in st.heap && OnlyAt(st, st', ptr)
    requires Agrees(st'.heap[ptr], ptr, st'.epoll, st'.addsOk)
    requires Sane(st'.heap[ptr]) && SocketsMatch(st.sockets, st'.heap[ptr])
    ensures Consistent(st')
  {
    TablesKept(st, st', ptr);
    AgreeKept(st, st', ptr);
    SaneKept(st.heap, ptr, st'.heap[ptr]);
    MatchKept(st.sockets, st.heap, ptr, st'.heap[ptr]);
  }

  lemma SameSockets(sockets: map<SocketId, Socket>, i: Info, j: Info)
    requires SocketsMatch(sockets, i) && SameKind(i, j)
    requires forall p :: p in j.desc.Listeners() ==> p in i.desc.Listeners() || Owned(sockets, i.fd, p)
    ensures SocketsMatch(sockets, j)
  {
  }

  lemma ReplaceKeepsTables(st: State, ptr: Ptr, i: Info, ok: bool)
    requires Consistent(st) && ptr in st.heap && SameKind(i, st.heap[ptr]) && Sane(i)
    requires forall p :: p in i.desc.Listeners() ==> p in st.heap[ptr].desc.Listeners() || Owned(st.sockets, i.fd, p)
    ensures var st' := Replace(st, ptr, i, ok);
            Consistent(st') && OnlyAt(st, st', ptr) && st'.heap[ptr].desc.Listeners() == i.desc.Listeners()
  {
    ReplaceAgrees(st, ptr, i, ok);
    SameSockets(st.sockets, st.heap[ptr], Replace(st, ptr, i, ok).heap[ptr]);
    OnlyAtKeeps(st, Replace(st, ptr, i, ok), ptr);
  }

  // ---- Messages.

  /** Marking a socket as having sent keeps every port's owner. */
  lemma MarkSentMatch(sockets: map<SocketId, Socket>, id: SocketId, sent: bool, i: Info)
    requires id in sockets && (sockets[id].sent ==> sent) && SocketsMatch(sockets, i)
    ensures SocketsMatch(sockets[id := sockets[id].(sent := sent)], i)
  {
    var after := sockets[id := sockets[id].(sent := sent)];
    var other :| OpenOn(sockets, other, i.fd);
    assert OpenOn(after, other, i.fd);
    forall k | OpenOn(after, k, i.fd) ensures after[k].listening == i.desc.IsListeningSocket() {
      assert OpenOn(sockets, k, i.fd);
    }
    forall p | p in i.desc.Listeners() ensures Owned(after, i.fd, p) {
      assert Owned(sockets, i.fd, p);
      var owner :| OpenOn(sockets, owner, i.fd) && sockets[owner].sent && sockets[owner].port == p;
      assert OpenOn(after, owner, i.fd);
    }
  }

  lemma MarkSentKeeps(st: State, id: SocketId, sent: bool)
    requires Consistent(st) && id in st.sockets && (st.sockets[id].sent ==> sent)
    ensures Consistent(st.(sockets := st.sockets[id := st.sockets[id].(sent := sent)]))
  {
    forall q | q in st.heap ensures SocketsMatch(st.sockets[id := st.sockets[id].(sent := sent)], st.heap[q]) {
      MarkSentMatch(st.sockets, id, sent, st.heap[q]);
    }
  }

  /** A descriptor just created asks for nothing and belongs to the socket that caused it. */
  lemma NewDescriptorFits(sockets: map<SocketId, Socket>, id: SocketId, epoll: map<Fd, Registration>, addsOk: bool, ptr: Ptr)
    requires SocketsOk(sockets) && id in sockets && sockets[id].fd >= 0 && sockets[id].fd !in epoll
    ensures var i := Info(sockets[id].fd, if sockets[id].listening then Many(NewShared(false)) else One(NewSingle(false)));
            Sane(i) && SocketsMatch(sockets, i) && Agrees(i, ptr, epoll, addsOk)
  {
    assert OpenOn(sockets, id, sockets[id].fd);
  }

  lemma CreateTables(st: State, fd: Fd, listening: bool)
    requires TablesOk(st.socketMap, st.heap, st.epoll, st.nextPtr) && fd !in st.socketMap
    ensures var st' := GetDescriptorInfo(st, fd, listening).0;
            TablesOk(st'.socketMap, st'.heap, st'.epoll, st'.nextPtr)
  {
  }

  lemma AgreeKeptAtNew(heap: map<Ptr, Info>, ptr: Ptr, i: Info, epoll: map<Fd, Registration>, addsOk: bool)
    requires AllAgree(heap, epoll, addsOk) && Agrees(i, ptr, epoll, addsOk)
    ensures AllAgree(heap[ptr := i], epoll, addsOk)
  {
  }

  lemma CreateKeeps(st: State, id: SocketId)
    requires Consistent(st) && id in st.sockets && st.sockets[id].fd >= 0 && st.sockets[id].fd !in st.socketMap
    ensures Consistent(GetDescriptorInfo(st, st.sockets[id].fd, st.sockets[id].listening).0)
  {
    var s := st.sockets[id];
    var (st', ptr) := GetDescriptorInfo(st, s.fd, s.listening);
    NewDescriptorFits(st.sockets, id, st.epoll, st.addsOk, ptr);
    hide AllSane, AllMatch, AllAgree, TablesOk, Sane, SocketsMatch, Agrees;
    CreateTables(st, s.fd, s.listening);
    SaneKept(st.heap, ptr, st'.heap[ptr]);
    MatchKept(st.sockets, st.heap, ptr, st'.heap[ptr]);
    AgreeKeptAtNew(st.heap, ptr, st'.heap[ptr], st.epoll, st.addsOk);
  }

  lemma PreparedKeeps(st: State, msg: Message)
    requires Consistent(st) && msg.SocketMessage? && msg.id in st.sockets && st.sockets[msg.id].fd >= 0
    ensures var (st', ptr) := Prepared(st, msg);
            && Consistent(st') && ptr in st'.heap && msg.id in st'.sockets
            && st'.sockets[msg.id] == st.sockets[msg.id].(sent := st.sockets[msg.id].sent || msg.port != NO_PORT)
            && st'.heap[ptr].fd == st.sockets[msg.id].fd
            && (st.sockets[msg.id].fd in st.socketMap ==> ptr == st.socketMap[st.sockets[msg.id].fd] && st'.heap == st.heap)
  {
    hide AllSane, AllMatch, AllAgree, SocketsOk, Sane;
    var s := st.sockets[msg.id];
    if s.fd !in st.socketMap {
      CreateKeeps(st, msg.id);
    }
    MarkSentKeeps(GetDescriptorInfo(st, s.fd, s.listening).0, msg.id, s.sent || msg.port != NO_PORT);
  }

  /** What is known when a command meets its descriptor. */
  ghost predicate Meets(st: State, ptr: Ptr, msg: Message) {
    && Consistent(st) && msg.SocketMessage? && ptr in st.heap
    && OpenOn(st.sockets, msg.id, st.heap[ptr].fd)
    && (if msg.port == NO_PORT then msg.command.Close? && !st.sockets[msg.id].sent
        else msg.port == st.sockets[msg.id].port && st.sockets[msg.id].sent)
    && (msg.command.ReturnToken? ==>
          var d := st.heap[ptr].desc; d.Knows(msg.port) && d.Tokens(msg.port) + msg.command.count <= d.Quota())
  }

  /** When only one socket is open on the fd, its port is the only one the descriptor
      knows; a single descriptor never has more than one. */
  lemma SoleListener(st: State, ptr: Ptr, msg: Message)
    requires Meets(st, ptr, msg) && (st.heap[ptr].desc.One? || LastCloser(st.sockets, msg.id))
    ensures LastCloser(st.sockets, msg.id)
    ensures forall p :: p in st.heap[ptr].desc.Listeners() ==> p == msg.port
  {
    var i := st.heap[ptr];
    assert SocketsMatch(st.sockets, i);
    assert forall other :: other in st.sockets && st.sockets[other].fd == i.fd ==> OpenOn(st.sockets, other, i.fd);
    forall p | p in i.desc.Listeners() ensures p == msg.port {
      assert Owned(st.sockets, i.fd, p);
      var owner :| OpenOn(st.sockets, owner, i.fd) && st.sockets[owner].sent && st.sockets[owner].port == p;
      assert owner == msg.id;
    }
  }

  lemma SetMaskKeeps(st: State, ptr: Ptr, msg: Message)
    requires Meets(st, ptr, msg) && msg.command.SetEventMask?
    ensures Consistent(HandleCommand(st, ptr, msg))
  {
    hide AllSane, AllMatch, AllAgree, TablesOk, SocketsOk, Sane, Replace, Owned;
    var i, mask := st.heap[ptr], msg.command.mask;
    SaneAt(st, ptr);
    OwnPort(st, ptr, msg);
    SetMaskSane(i, msg.port, mask);
    var i' := Info(i.fd, i.desc.SetPortAndMask(msg.port, mask));
    ReplaceKeepsTables(st.(log := if i.desc.Knows(msg.port) then st.log else st.log + [Added(ptr, msg.port)]), ptr, i', msg.addOk);
  }

  lemma SaneAt(st: State, ptr: Ptr)
    requires Consistent(st) && ptr in st.heap
    ensures Sane(st.heap[ptr])
  {
  }

  /** A command other than closing names its socket's own port, and a single descriptor has
      no other. */
  lemma OwnPort(st: State, ptr: Ptr, msg: Message)
    requires Meets(st, ptr, msg) && msg.port != NO_PORT
    ensures Owned(st.sockets, st.heap[ptr].fd, msg.port)
    ensures var desc := st.heap[ptr].desc; desc.One? ==> desc.one.port == NO_PORT || desc.one.port == msg.port
  {
    hide AllSane, AllAgree, TablesOk, SocketsOk, Sane;
    var desc := st.heap[ptr].desc;
    if desc.One? {
      SoleListener(st, ptr, msg);
      assert desc.one.port != NO_PORT ==> desc.one.port in desc.Listeners();
    }
  }

  lemma ReturnKeeps(st: State, ptr: Ptr, msg: Message)
    requires Meets(st, ptr, msg) && msg.command.ReturnToken?
    ensures Consistent(HandleCommand(st, ptr, msg))
  {
    hide AllMatch, AllAgree, TablesOk, SocketsOk, Sane, Replace;
    var i, count := st.heap[ptr], msg.command.count;
    assert Sane(i);
    ReturnSane(i, msg.port, count);
    ReplaceKeepsTables(st.(log := st.log + [Returned(ptr, msg.port, count)]), ptr,
                       Info(i.fd, i.desc.ReturnTokens(msg.port, count)), msg.addOk);
  }

  /** Closing one socket leaves alone the descriptors on other fds. */
  lemma SocketsKept(sockets: map<SocketId, Socket>, id: SocketId, i: Info)
    requires id in sockets && SocketsMatch(sockets, i)
    requires exists other :: other != id && OpenOn(sockets, other, i.fd)
    requires sockets[id].fd == i.fd ==>
               forall p :: p in i.desc.Listeners() ==> !sockets[id].sent || p != sockets[id].port
    ensures SocketsMatch(sockets[id := sockets[id].(fd := -1)], i)
  {
    var after := sockets[id := sockets[id].(fd := -1)];
    var other :| other != id && OpenOn(sockets, other, i.fd);
    assert OpenOn(after, other, i.fd);
    forall k | OpenOn(after, k, i.fd) ensures after[k].listening == i.desc.IsListeningSocket() {
      assert OpenOn(sockets, k, i.fd);
    }
    forall p | p in i.desc.Listeners() ensures Owned(after, i.fd, p) {
      assert Owned(sockets, i.fd, p);
      var owner :| OpenOn(sockets, owner, i.fd) && sockets[owner].sent && sockets[owner].port == p;
      assert owner != id && OpenOn(after, owner, i.fd);
    }
  }

  lemma CloseSocketMatch(sockets: map<SocketId, Socket>, heap: map<Ptr, Info>, id: SocketId)
    requires id in sockets && AllMatch(sockets, heap)
    requires forall q :: q in heap && heap[q].fd == sockets[id].fd ==>
                           && (exists other :: other != id && OpenOn(sockets, other, heap[q].fd))
                           && (forall p :: p in heap[q].desc.Listeners() ==> !sockets[id].sent || p != sockets[id].port)
    ensures AllMatch(sockets[id := sockets[id].(fd := -1)], heap)
  {
    forall q | q in heap ensures SocketsMatch(sockets[id := sockets[id].(fd := -1)], heap[q]) {
      assert SocketsMatch(sockets, heap[q]);
      if sockets[id].fd != heap[q].fd {
        var other :| OpenOn(sockets, other, heap[q].fd);
        assert other != id;
      }
      SocketsKept(sockets, id, heap[q]);
    }
  }

  /** Without the descriptor, its fd and its registration, the rest still fits. */
  lemma FreeTables(st: State, st1: State, ptr: Ptr)
    requires TablesOk(st.socketMap, st.heap, st.epoll, st.nextPtr) && AllAgree(st.heap, st.epoll, st.addsOk)
    requires ptr in st.heap && OnlyAt(st, st1, ptr) && st.heap[ptr].fd !in st1.epoll
    ensures TablesOk(st1.socketMap - {st.heap[ptr].fd}, st.heap - {ptr}, st1.epoll, st1.nextPtr)
    ensures AllAgree(st.heap - {ptr}, st1.epoll, st1.addsOk)
    ensures forall q :: q in st.heap - {ptr} ==> st.heap[q].fd != st.heap[ptr].fd
  {
    forall q | q in st.heap - {ptr} ensures Agrees(st.heap[q], q, st1.epoll, st1.addsOk) {
      assert Agrees(st.heap[q], q, st.epoll, st.addsOk);
    }
  }

  lemma CloseSocketsOk(sockets: map<SocketId, Socket>, id: SocketId)
    requires SocketsOk(sockets) && id in sockets
    ensures SocketsOk(sockets[id := sockets[id].(fd := -1)])
  {
  }

  lemma SmallerHeap(sockets: map<SocketId, Socket>, heap: map<Ptr, Info>, ptr: Ptr)
    requires AllSane(heap) && AllMatch(sockets, heap)
    ensures AllSane(heap - {ptr}) && AllMatch(sockets, heap - {ptr})
  {
  }

  /** Freeing a descriptor whose last socket closes, once epoll no longer holds it. */
  lemma FreeKeeps(st: State, st1: State, ptr: Ptr, id: SocketId, log: seq<Record>)
    requires Consistent(st) && ptr in st.heap && OpenOn(st.sockets, id, st.heap[ptr].fd)
    requires OnlyAt(st, st1, ptr) && st.heap[ptr].fd !in st1.epoll
    ensures Consistent(st1.(socketMap := st1.socketMap - {st.heap[ptr].fd}, heap := st1.heap - {ptr},
                     sockets := st1.sockets[id := st1.sockets[id].(fd := -1)], log := log))
  {
    hide AllSane, AllMatch, AllAgree, TablesOk, SocketsOk;
    var heap := st1.heap - {ptr};
    SmallerHeap(st.sockets, st.heap, ptr);
    FreeTables(st, st1, ptr);
    CloseSocketsOk(st.sockets, id);
    assert heap == st.heap - {ptr};
    CloseSocketMatch(st.sockets, heap, id);
  }

  /** Closing one of several listeners that share a descriptor. */
  lemma LeaveKeeps(st: State, ptr: Ptr, id: SocketId, port: Port, log: seq<Record>)
    requires Consistent(st) && ptr in st.heap && OpenOn(st.sockets, id, st.heap[ptr].fd) && !LastCloser(st.sockets, id)
    requires if port == NO_PORT then !st.sockets[id].sent else port == st.sockets[id].port
    requires port !in st.heap[ptr].desc.Listeners()
    ensures Consistent(st.(sockets := st.sockets[id := st.sockets[id].(fd := -1)], log := log))
  {
    hide AllSane, AllAgree, AllMatch;
    var other :| other in st.sockets && other != id && st.sockets[other].fd == st.sockets[id].fd;
    assert OpenOn(st.sockets, other, st.heap[ptr].fd);
    CloseSocketMatch(st.sockets, st.heap, id);
  }

  /** A descriptor about to be freed asks for nothing: the assertion before each delete. */
  lemma NothingAskedAtFree(st: State, ptr: Ptr, msg: Message)
    requires Meets(st, ptr, msg) && msg.command.Close?
    requires st.heap[ptr].desc.One? || LastCloser(st.sockets, msg.id)
    ensures ClosePort(st.heap[ptr], msg.port).desc.CurrentMask() == {}
  {
    var i := st.heap[ptr];
    assert Sane(i);
    SoleListener(st, ptr, msg);
    match i.desc
    case One(s) => assert s.port != NO_PORT ==> s.port in i.desc.Listeners();
    case Many(m) =>
      ClosePortSane(i, msg.port);
      MaskIsUnion(ClosePort(i, msg.port).desc.many);
      assert ClosePort(i, msg.port).desc.many.ports.Keys == {};
  }

  /** The parts of the invariant at the descriptor a command meets. */
  lemma MeetsFacts(st: State, ptr: Ptr, msg: Message)
    requires Meets(st, ptr, msg)
    ensures Consistent(st) && Sane(st.heap[ptr]) && Agrees(st.heap[ptr], ptr, st.epoll, st.addsOk)
    ensures OpenOn(st.sockets, msg.id, st.heap[ptr].fd)
    ensures msg.port == NO_PORT ==> !st.sockets[msg.id].sent
    ensures msg.port != NO_PORT ==> msg.port == st.sockets[msg.id].port
    ensures st.heap[ptr].desc.Many? ==> NO_PORT !in st.heap[ptr].desc.Listeners()
  {
  }

  /** What closing comes to, when the descriptor goes and when it stays. */
  lemma CloseEffect(st: State, ptr: Ptr, msg: Message)
    requires Meets(st, ptr, msg) && msg.command.Close?
    ensures var st1 := Replace(st, ptr, ClosePort(st.heap[ptr], msg.port), msg.addOk);
            msg.id in st1.sockets && HandleCommand(st, ptr, msg) == Closed(st, st1, ptr, msg)
  {
    hide Consistent, ClosePort;
  }

  ghost function Closed(st: State, st1: State, ptr: Ptr, msg: Message): State
    requires msg.SocketMessage? && msg.id in st.sockets && msg.id in st1.sockets && ptr in st.heap
  {
    var st2 := st1.(sockets := st1.sockets[msg.id := st1.sockets[msg.id].(fd := -1)],
                    log := st1.log + [Told(msg.port, {DestroyedEvent})]);
    if st.heap[ptr].desc.One? || LastCloser(st.sockets, msg.id) then
      st2.(socketMap := st1.socketMap - {st.heap[ptr].fd}, heap := st1.heap - {ptr})
    else st2
  }

  lemma LastCloseKeeps(st: State, ptr: Ptr, msg: Message)
    requires Meets(st, ptr, msg) && msg.command.Close?
    requires st.heap[ptr].desc.One? || LastCloser(st.sockets, msg.id)
    ensures Consistent(HandleCommand(st, ptr, msg))
  {
    var i := st.heap[ptr];
    var st1 := Replace(st, ptr, ClosePort(i, msg.port), msg.addOk);
    NothingAskedAtFree(st, ptr, msg);
    CloseEffect(st, ptr, msg);
    MeetsFacts(st, ptr, msg);
    hide Meets, Consistent, Sane, Agrees, Replace, HandleCommand, ClosePort;
    StillAgrees(st, ptr, ClosePort(i, msg.port), msg.addOk);
    FreeKeeps(st, st1, ptr, msg.id, st1.log + [Told(msg.port, {DestroyedEvent})]);
  }

  lemma EarlierCloseKeeps(st: State, ptr: Ptr, msg: Message)
    requires Meets(st, ptr, msg) && msg.command.Close?
    requires st.heap[ptr].desc.Many? && !LastCloser(st.sockets, msg.id)
    ensures Consistent(HandleCommand(st, ptr, msg))
  {
    var i := st.heap[ptr];
    var st1 := Replace(st, ptr, ClosePort(i, msg.port), msg.addOk);
    CloseEffect(st, ptr, msg);
    hide Meets, Consistent, Sane, Agrees, Replace, HandleCommand;
    MeetsFacts(st, ptr, msg);
    ClosePortSane(i, msg.port);
    ReplaceKeepsTables(st, ptr, ClosePort(i, msg.port), msg.addOk);
    LeaveKeeps(st1, ptr, msg.id, msg.port, st1.log + [Told(msg.port, {DestroyedEvent})]);
  }

  /** Carrying out any command keeps the tables. */
  lemma CommandKeeps(st: State, ptr: Ptr, msg: Message)
    requires Meets(st, ptr, msg)
    ensures Consistent(HandleCommand(st, ptr, msg))
  {
    match msg.command
    case ShutdownRead =>
    case ShutdownWrite =>
    case Close =>
      if st.heap[ptr].desc.One? || LastCloser(st.sockets, msg.id) {
        LastCloseKeeps(st, ptr, msg);
      } else {
        EarlierCloseKeeps(st, ptr, msg);
      }
    case ReturnToken(count) => ReturnKeeps(st, ptr, msg);
    case SetEventMask(mask) => SetMaskKeeps(st, ptr, msg);
  }
}
