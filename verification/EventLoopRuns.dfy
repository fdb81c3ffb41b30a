/** Whole runs of the event loop, from an empty handler: sockets opening, batches of
    epoll events and, after the events of a batch, interrupt messages. */
module EventLoopRuns {
  import opened Descriptors
  import opened EventLoop
  import opened EventLoopSafety
  import opened EventLoopLedger
  import opened EventLoopMessages

  // ---- Handling one event.

  /** The event comes from a registration that still stands. */
  ghost predicate Registered(st: State, ptr: Ptr) {
    ptr in st.heap && st.heap[ptr].fd in st.epoll && st.epoll[st.heap[ptr].fd].ptr == ptr
  }

  /** A registered descriptor asks for something, so the port that is next to be
      notified is a real one with a token to spend. */
  lemma NextPortIsReal(st: State, ptr: Ptr)
    requires Inv(st) && Registered(st, ptr)
    ensures Sane(st.heap[ptr]) && st.heap[ptr].desc.CurrentMask() != {}
    ensures st.heap[ptr].desc.Many? ==> st.heap[ptr].desc.many.Coherent()
    ensures st.heap[ptr].desc.NextNotify().1 != NO_PORT
    ensures match st.heap[ptr].desc
            case One(s) => 0 < s.tokens <= SINGLE_QUOTA
            case Many(m) => m.IsReady(st.heap[ptr].desc.NextNotify().1)
  {
    var i := st.heap[ptr];
    assert Sane(i) && Agrees(i, ptr, st.epoll, st.addsOk);
    NextNotifySane(i);
    if i.desc.Many? {
      NextNotifyCoherent(i.desc.many);
    }
  }

  lemma NothingChanged(st: State, ptr: Ptr)
    requires ptr in st.heap
    ensures OnlyAt(st, st, ptr)
  {
    assert st.heap[ptr := st.heap[ptr]] == st.heap;
  }

  lemma OnlyTheLog(st: State, st': State, ptr: Ptr, log: seq<Record>)
    requires Consistent(st') && ptr in st.heap && OnlyAt(st, st', ptr)
    ensures Consistent(st'.(log := log)) && OnlyAt(st, st'.(log := log), ptr)
  {
    hide AllSane, AllMatch, AllAgree, TablesOk, SocketsOk;
  }

  lemma ReadyKeepsTables(st: State, e: PollEvent)
    requires Inv(st) && e.Ready? && Registered(st, e.ptr)
    ensures Sane(st.heap[e.ptr])
    ensures var st' := HandleReady(st, e); Consistent(st') && OnlyAt(st, st', e.ptr)
  {
    hide Consistent, AllConserved, AllServed, OnlyAt, Sane, Replace, EventMask;
    NextPortIsReal(st, e.ptr);
    var i, mask := st.heap[e.ptr], EventMask(e.bits);
    if ErrorEvent in mask {
      var logged := st.(log := st.log + [Notified(e.ptr, i.desc.Listeners(), mask)]);
      NothingChanged(st, e.ptr);
      OnlyTheLog(st, st, e.ptr, logged.log);
      BroadcastSane(i);
      ReplaceKeepsTables(logged, e.ptr, Info(i.fd, i.desc.NotifyAll()), e.addOk);
      OnlyAtAfterLog(st, logged.log, HandleReady(st, e), e.ptr);
    } else if mask != {} {
      var (desc, _) := i.desc.NextNotify();
      NextNotifySane(i);
      ReplaceKeepsTables(st, e.ptr, Info(i.fd, desc), e.addOk);
      OnlyTheLog(st, Replace(st, e.ptr, Info(i.fd, desc), e.addOk), e.ptr, HandleReady(st, e).log);
    } else {
      NothingChanged(st, e.ptr);
    }
  }

  lemma OnlyAtAfterLog(st: State, log: seq<Record>, st': State, ptr: Ptr)
    requires ptr in st.heap && OnlyAt(st.(log := log), st', ptr)
    ensures OnlyAt(st, st', ptr)
  {
  }

  lemma ReadyKeepsInv(st: State, e: PollEvent)
    requires Inv(st) && e.Ready? && Registered(st, e.ptr)
    ensures Sane(st.heap[e.ptr])
    ensures var st' := HandleReady(st, e); Inv(st') && OnlyAt(st, st', e.ptr) && st'.timeouts == st.timeouts
  {
    hide Consistent, AllConserved, AllServed, Sane, HandleReady;
    NextPortIsReal(st, e.ptr);
    ReadyKeepsTables(st, e);
    ReadyConserves(st, e);
    ReadyServes(st, e);
  }

  // ---- Handling a batch.

  /** What epoll_wait guarantees of a batch: every event comes from a standing
      registration, and no descriptor is reported twice. */
  ghost predicate BatchOk(st: State, events: seq<PollEvent>) {
    && (forall k :: 0 <= k < |events| && events[k].Ready? ==> Registered(st, events[k].ptr))
    && (forall k :: 0 <= k < |events| && events[k].Timer? ==> st.timeouts == map[] || IsEarliest(st.timeouts, events[k].first))
    && (forall j, k :: 0 <= j < k < |events| && events[j].Ready? && events[k].Ready? ==> events[j].ptr != events[k].ptr)
    && (forall j, k :: 0 <= j < k < |events| && events[j].Timer? ==> !events[k].Timer?)
  }

  lemma StillRegistered(st: State, st': State, ptr: Ptr, other: Ptr)
    requires Inv(st) && ptr in st.heap && OnlyAt(st, st', ptr) && Registered(st, other) && other != ptr
    ensures Registered(st', other)
  {
    assert st.heap[other].fd != st.heap[ptr].fd;
  }

  lemma TimerKeepsInv(st: State, first: Port)
    requires Inv(st)
    ensures Inv(HandleTimer(st, first))
  {
    hide AllSane, AllMatch, AllAgree, TablesOk, SocketsOk, AllServed;
    RecordServes(st.sockets, st.heap, st.log, Told(first, {}));
    forall ptr | ptr in st.heap ensures Conserved(st.heap[ptr].desc, ptr, st.log + [Told(first, {})], {}) {
      assert Conserved(st.heap[ptr].desc, ptr, st.log, {});
      ToldConserved(st.heap[ptr].desc, ptr, st.log, Told(first, {}));
    }
  }

  /** Handling the first event of a batch leaves the rest of the batch as good as it was:
      its descriptors are alive and still registered. */
  lemma EventKeepsBatch(st: State, events: seq<PollEvent>)
    requires Inv(st) && BatchOk(st, events) && events != []
    ensures events[0].Ready? ==> events[0].ptr in st.heap && Sane(st.heap[events[0].ptr])
    ensures Inv(HandleEvent(st, events[0])) && BatchOk(HandleEvent(st, events[0]), events[1..])
  {
    hide Inv, Sane, HandleReady, OnlyAt;
    var e, rest := events[0], events[1..];
    match e
    case Interrupt =>
    case Timer(first) =>
      TimerKeepsInv(st, first);
      assert forall k :: 0 <= k < |rest| ==> rest[k] == events[k + 1];
    case Ready(ptr, _, _) =>
      ReadyKeepsInv(st, e);
      var st' := HandleReady(st, e);
      assert forall k :: 0 <= k < |rest| ==> rest[k] == events[k + 1];
      forall k | 0 <= k < |rest| && rest[k].Ready? ensures Registered(st', rest[k].ptr) {
        StillRegistered(st, st', ptr, rest[k].ptr);
      }
  }

  function HandleBatch(st: State, events: seq<PollEvent>): (st': State)
    requires Inv(st) && BatchOk(st, events)
    ensures Inv(st')
    decreases |events|
  {
    if events == [] then st
    else
      EventKeepsBatch(st, events);
      HandleBatch(HandleEvent(st, events[0]), events[1..])
  }

  /** Every event of a batch finds its descriptor alive when its turn comes, and the
      port chosen for it is a real one with a token to spend, whatever the events
      before it did. */
  lemma {:induction false} BatchNamesLiveDescriptors(st: State, events: seq<PollEvent>, k: nat)
    requires Inv(st) && BatchOk(st, events) && k < |events| && events[k].Ready?
    ensures BatchOk(st, events[..k])
    ensures var before := HandleBatch(st, events[..k]);
            && events[k].ptr in before.heap && Sane(before.heap[events[k].ptr])
            && before.heap[events[k].ptr].desc.NextNotify().1 != NO_PORT
            && match before.heap[events[k].ptr].desc
               case One(s) => 0 < s.tokens <= SINGLE_QUOTA
               case Many(m) => m.IsReady(before.heap[events[k].ptr].desc.NextNotify().1)
    decreases k
  {
    hide Inv, Sane, HandleEvent;
    if k == 0 {
      NextPortIsReal(st, events[0].ptr);
    } else {
      EventKeepsBatch(st, events);
      BatchNamesLiveDescriptors(HandleEvent(st, events[0]), events[1..], k - 1);
      assert events[..k][0] == events[0] && events[..k][1..] == events[1..][..k - 1];
    }
  }

  // ---- Messages.

  /** Each message is disciplined when its turn comes. */
  ghost predicate MessagesOk(st: State, messages: seq<Message>)
    requires Inv(st)
    decreases |messages|
  {
    messages == [] ||
    (&& Disciplined(st, messages[0])
     && (MessageKeepsInv(st, messages[0]); MessagesOk(HandleMessage(st, messages[0]), messages[1..])))
  }

  function HandleMessages(st: State, messages: seq<Message>): (st': State)
    requires Inv(st) && MessagesOk(st, messages)
    ensures Inv(st')
    decreases |messages|
  {
    if messages == [] then st
    else
      MessageKeepsInv(st, messages[0]);
      HandleMessages(HandleMessage(st, messages[0]), messages[1..])
  }

  // ---- Runs.

  datatype Step =
    | Open(id: SocketId, socket: Socket)
    | Wake(events: seq<PollEvent>, messages: seq<Message>)

  /** A new socket has an fd of its own, or shares that of other listening sockets, and a
      port that no socket ever had. */
  ghost predicate MayOpen(st: State, id: SocketId, s: Socket) {
    && id !in st.sockets && s.fd >= 0 && s.port != NO_PORT && !s.sent
    && (forall other :: OpenOn(st.sockets, other, s.fd) ==> s.listening && st.sockets[other].listening)
    && (forall other :: other in st.sockets ==> st.sockets[other].port != s.port)
  }

  lemma OpenKeepsInv(st: State, id: SocketId, s: Socket)
    requires Inv(st) && MayOpen(st, id, s)
    ensures Inv(st.(sockets := st.sockets[id := s]))
  {
    hide AllSane, AllAgree, TablesOk, AllConserved, AllServed, SocketsOk, SocketsMatch;
    var sockets := st.sockets[id := s];
    SocketsServe(st.sockets, sockets, st.heap, st.log);
    OpenSocketsOk(st.sockets, id, s);
    forall q | q in st.heap ensures SocketsMatch(sockets, st.heap[q]) {
      OpenMatch(st.sockets, id, s, st.heap[q]);
    }
  }

  lemma OpenSocketsOk(sockets: map<SocketId, Socket>, id: SocketId, s: Socket)
    requires SocketsOk(sockets) && id !in sockets && s.port != NO_PORT
    requires forall other :: OpenOn(sockets, other, s.fd) ==> s.listening && sockets[other].listening
    requires forall other :: other in sockets ==> sockets[other].port != s.port
    ensures SocketsOk(sockets[id := s])
  {
    forall other | other in sockets && sockets[other].fd == s.fd ensures s.listening && sockets[other].listening {
      assert OpenOn(sockets, other, s.fd);
    }
  }

  lemma OpenMatch(sockets: map<SocketId, Socket>, id: SocketId, s: Socket, i: Info)
    requires SocketsMatch(sockets, i) && id !in sockets
    requires forall other :: OpenOn(sockets, other, s.fd) ==> s.listening && sockets[other].listening
    ensures SocketsMatch(sockets[id := s], i)
  {
    var after := sockets[id := s];
    var other :| OpenOn(sockets, other, i.fd);
    assert OpenOn(after, other, i.fd);
    forall k | OpenOn(after, k, i.fd) ensures after[k].listening == i.desc.IsListeningSocket() {
      assert k != id ==> OpenOn(sockets, k, i.fd);
    }
    forall p | p in i.desc.Listeners() ensures Owned(after, i.fd, p) {
      assert Owned(sockets, i.fd, p);
      var owner :| OpenOn(sockets, owner, i.fd) && sockets[owner].sent && sockets[owner].port == p;
      assert OpenOn(after, owner, i.fd);
    }
  }

  ghost predicate StepOk(st: State, step: Step)
    requires Inv(st)
  {
    match step
    case Open(id, s) => MayOpen(st, id, s)
    case Wake(events, messages) =>
      BatchOk(st, events) && (Interrupt in events ==> MessagesOk(HandleBatch(st, events), messages))
  }

  /** One turn of the loop: all events of the batch, and only then, if the interrupt pipe
      was among them, the messages. */
  function Next(st: State, step: Step): (st': State)
    requires Inv(st) && StepOk(st, step)
    ensures Inv(st')
  {
    match step
    case Open(id, s) => OpenKeepsInv(st, id, s); st.(sockets := st.sockets[id := s])
    case Wake(events, messages) =>
      var st1 := HandleBatch(st, events);
      if Interrupt in events then HandleMessages(st1, messages) else st1
  }

  ghost predicate RunOk(st: State, steps: seq<Step>)
    requires Inv(st)
    decreases |steps|
  {
    steps == [] || (StepOk(st, steps[0]) && RunOk(Next(st, steps[0]), steps[1..]))
  }

  function Run(st: State, steps: seq<Step>): (st': State)
    requires Inv(st) && RunOk(st, steps)
    ensures Inv(st')
    decreases |steps|
  {
    if steps == [] then st else Run(Next(st, steps[0]), steps[1..])
  }

  lemma InitialInv()
    ensures Inv(Initial())
  {
  }

  /** The steps can be taken, one after the other, from the start. */
  ghost predicate Possible(steps: seq<Step>) {
    InitialInv();
    RunOk(Initial(), steps)
  }

  /** The state they lead to. */
  ghost function Reached(steps: seq<Step>): (st: State)
    requires Possible(steps)
    ensures Inv(st)
  {
    InitialInv();
    Run(Initial(), steps)
  }

  // ---- What the invariant gives in every reachable state.

  /** The bits epoll is asked for are those of the mask, plus EPOLLRDHUP, plus EPOLLET
      exactly for descriptors that are not listening sockets. */
  ghost predicate BitsOf(bits: set<PollBit>, d: Descriptor) {
    && (EPOLLIN in bits <==> InEvent in d.CurrentMask())
    && (EPOLLOUT in bits <==> OutEvent in d.CurrentMask())
    && EPOLLRDHUP in bits
    && (EPOLLET in bits <==> !d.IsListeningSocket())
    && EPOLLERR !in bits && EPOLLHUP !in bits
  }

  /** In every reachable state, each registration is that of a live descriptor, its own,
      which asks for something, with exactly the bits of its mask; and if every add has
      succeeded so far, every descriptor that asks for something is registered. */
  lemma RegistrationsMatchMasks(steps: seq<Step>, fd: Fd)
    requires Possible(steps)
    ensures var st := Reached(steps);
            && (fd in st.epoll ==>
                  && fd in st.socketMap && st.socketMap[fd] in st.heap
                  && var ptr := st.socketMap[fd];
                     && st.epoll[fd].ptr == ptr && st.heap[ptr].fd == fd
                     && st.heap[ptr].desc.CurrentMask() != {}
                     && BitsOf(st.epoll[fd].bits, st.heap[ptr].desc))
            && (st.addsOk && fd in st.socketMap ==>
                  && st.socketMap[fd] in st.heap
                  && (fd in st.epoll <==> st.heap[st.socketMap[fd]].desc.CurrentMask() != {}))
  {
    hide AllSane, AllMatch, SocketsOk, Reached, Possible;
    var st := Reached(steps);
    if fd in st.socketMap {
      var ptr := st.socketMap[fd];
      assert Agrees(st.heap[ptr], ptr, st.epoll, st.addsOk);
    }
  }

  /** Token conservation in every reachable state: the tokens a port has left, and the
      notifications posted to it since it was last added less those it has returned, add up
      to its quota. */
  lemma TokensAreConserved(steps: seq<Step>, ptr: Ptr, p: Port)
    requires Possible(steps) && ptr in Reached(steps).heap && p in Reached(steps).heap[ptr].desc.Listeners()
    ensures var st := Reached(steps);
            var d := st.heap[ptr].desc;
            && d.Tokens(p) + Received(st.log, ptr, p) - GivenBack(st.log, ptr, p) == d.Quota()
            && d.Tokens(p) <= d.Quota() && (d.One? ==> 0 <= d.Tokens(p))
            && GivenBack(st.log, ptr, p) <= Received(st.log, ptr, p)
  {
    var st := Reached(steps);
    assert Sane(st.heap[ptr]) && Conserved(st.heap[ptr].desc, ptr, st.log, {});
  }

  /** In every run, each event of the next batch finds its descriptor alive and a real
      port to notify. */
  lemma EventsNeverNameFreedDescriptors(steps: seq<Step>, events: seq<PollEvent>, k: nat)
    requires Possible(steps) && BatchOk(Reached(steps), events) && k < |events| && events[k].Ready?
    ensures BatchOk(Reached(steps), events[..k])
    ensures var before := HandleBatch(Reached(steps), events[..k]);
            && events[k].ptr in before.heap && Sane(before.heap[events[k].ptr])
            && before.heap[events[k].ptr].desc.NextNotify().1 != NO_PORT
  {
    hide *;
    BatchNamesLiveDescriptors(Reached(steps), events, k);
  }

  /** A new descriptor gets an address that no live one has. */
  lemma AddressesAreFresh(st: State, fd: Fd, listening: bool)
    requires Inv(st) && fd !in st.socketMap
    ensures GetDescriptorInfo(st, fd, listening).1 !in st.heap
  {
  }

  // ---- The source's assertions.

  /** What the source asserts while handling a socket message. */
  ghost predicate AssertionsHold(st: State, ptr: Ptr, msg: Message)
    requires msg.SocketMessage? && ptr in st.heap && msg.id in st.sockets
  {
    var i, s := st.heap[ptr], st.sockets[msg.id];
    && i.fd == s.fd
    && (match msg.command
        case ShutdownRead => !i.desc.IsListeningSocket()
        case ShutdownWrite => !i.desc.IsListeningSocket()
        case Close =>
          && (msg.port != NO_PORT && i.desc.One? ==> i.desc.one.port == NO_PORT || i.desc.one.port == msg.port)
          && (i.desc.One? || LastCloser(st.sockets, msg.id) ==> ClosePort(i, msg.port).desc.CurrentMask() == {})
        case ReturnToken(count) =>
          && i.desc.Knows(msg.port)
          && (match i.desc.ReturnTokens(msg.port, count)
              case One(s') => s'.tokens <= SINGLE_QUOTA
              case Many(m) => m.ports[msg.port].tokens <= SHARED_QUOTA)
        case SetEventMask(mask) =>
          && mask <= {InEvent, OutEvent}
          && (match i.desc
              case One(s') => s'.port == NO_PORT || s'.port == msg.port
              case Many(m) => mask == {InEvent} || mask == {}))
  }

  /** A socket and the descriptor of its fd are of one kind. */
  lemma SameKindAsSocket(st: State, ptr: Ptr, msg: Message)
    requires Meets(st, ptr, msg)
    ensures st.sockets[msg.id].listening == st.heap[ptr].desc.IsListeningSocket()
  {
    assert SocketsMatch(st.sockets, st.heap[ptr]);
  }

  lemma MeetsAssertions(st: State, ptr: Ptr, msg: Message)
    requires Meets(st, ptr, msg)
    requires var listening := st.sockets[msg.id].listening;
             match msg.command
             case ShutdownRead => !listening
             case ShutdownWrite => !listening
             case SetEventMask(mask) => mask <= (if listening then {InEvent} else {InEvent, OutEvent})
             case _ => true
    ensures AssertionsHold(st, ptr, msg)
  {
    var i := st.heap[ptr];
    SameKindAsSocket(st, ptr, msg);
    MeetsFacts(st, ptr, msg);
    hide Consistent;
    if i.desc.One? {
      SoleListener(st, ptr, msg);
      assert i.desc.one.port != NO_PORT ==> i.desc.one.port in i.desc.Listeners();
    }
    if msg.command.Close? && (i.desc.One? || LastCloser(st.sockets, msg.id)) {
      NothingAskedAtFree(st, ptr, msg);
    }
  }

  /** No assertion on the way of a disciplined message fails. */
  lemma MessageAssertionsHold(st: State, msg: Message)
    requires Inv(st) && msg.SocketMessage? && Disciplined(st, msg) && st.sockets[msg.id].fd >= 0
    ensures var (st', ptr) := Prepared(st, msg);
            ptr in st'.heap && msg.id in st'.sockets && AssertionsHold(st', ptr, msg)
  {
    hide Consistent, AllConserved, AllServed, Meets, AssertionsHold;
    MessageMeets(st, msg);
    PreparedKeeps(st, msg);
    var (st', ptr) := Prepared(st, msg);
    MeetsAssertions(st', ptr, msg);
  }

  /** The branch that re-registers a descriptor with a changed mask is never taken for a
      listening socket. */
  lemma ListeningNeverReRegisters(d: Descriptor, d': Descriptor)
    requires d.IsListeningSocket() && d'.IsListeningSocket()
    ensures !(d.CurrentMask() != {} && d'.CurrentMask() != {} && d.CurrentMask() != d'.CurrentMask())
  {
  }

  /** A notification of a listening socket is a pure read event exactly when epoll
      reported neither EPOLLHUP nor EPOLLRDHUP, given that it reported only bits it was
      asked for besides those it always may. */
  lemma ListeningNotificationIsRead(d: Descriptor, bits: set<PollBit>)
    requires d.IsListeningSocket() && bits <= Interest(d) + {EPOLLERR, EPOLLHUP}
    requires EventMask(bits) != {} && ErrorEvent !in EventMask(bits)
    ensures EventMask(bits) == {InEvent} <==> EPOLLHUP !in bits && EPOLLRDHUP !in bits
  {
    assert EPOLLOUT !in bits;
  }

  /** The steps that make a listening socket known and have it ask for connections. */
  function Listening(fd: Fd, port: Port): seq<Step> {
    [Open(0, Socket(fd, port, true, false))] + [Wake([Interrupt], [SocketMessage(0, port, SetEventMask({InEvent}), true)])]
  }

  /** The state after the first of them, and after both. */
  function Opened(fd: Fd, port: Port): State {
    Initial().(sockets := map[0 := Socket(fd, port, true, false)])
  }

  function Asking(fd: Fd, port: Port): State {
    var d := Many(Shared(map[port := Entry(true, SHARED_QUOTA)], [port], false));
    State(map[0 := Socket(fd, port, true, true)], map[fd := 1], map[1 := Info(fd, d)],
          map[fd := Registration(1, Interest(d))], 2, [Added(1, port)], true, map[], 0, false)
  }

  lemma AskingIsNext(fd: Fd, port: Port)
    requires port != NO_PORT && Inv(Opened(fd, port))
    ensures var msg := SocketMessage(0, port, SetEventMask({InEvent}), true);
            Disciplined(Opened(fd, port), msg) && HandleMessage(Opened(fd, port), msg) == Asking(fd, port)
  {
    var st, msg := Opened(fd, port), SocketMessage(0, port, SetEventMask({InEvent}), true);
    var d := Many(NewShared(false));
    var (st', ptr) := Prepared(st, msg);
    assert ptr == 1 && st'.heap == map[1 := Info(fd, d)] && st'.log == [];
    assert st'.log + [Added(1, port)] == [Added(1, port)];
    assert d.SetPortAndMask(port, {InEvent}) == Many(Shared(map[port := Entry(true, SHARED_QUOTA)], [port], false)) by {
      assert NewShared(false).ring + [port] == [port];
    }
  }

  /** For every fd and port the run is possible, and ends with the socket registered. */
  lemma ListeningIsReached(fd: Fd, port: Port)
    requires port != NO_PORT
    ensures Possible(Listening(fd, port)) && Reached(Listening(fd, port)) == Asking(fd, port)
    ensures Registered(Asking(fd, port), 1)
  {
    InitialInv();
    var st, s := Initial(), Socket(fd, port, true, false);
    OpenKeepsInv(st, 0, s);
    assert st.sockets[0 := s] == map[0 := s];
    AskingIsNext(fd, port);
    var msg := SocketMessage(0, port, SetEventMask({InEvent}), true);
    var open := Open(0, s);
    assert StepOk(st, open) && Next(st, open) == Opened(fd, port);
    hide Inv, Disciplined, HandleMessage, Next, StepOk;
    WakeForOne(Opened(fd, port), msg);
    RunTwo(st, open, Wake([Interrupt], [msg]));
  }

  /** A wakeup for one message handles that message. */
  lemma WakeForOne(st: State, msg: Message)
    requires Inv(st) && Disciplined(st, msg)
    ensures var wake := Wake([Interrupt], [msg]); StepOk(st, wake) && Next(st, wake) == HandleMessage(st, msg)
  {
    hide Inv, Disciplined, HandleMessage;
    MessageKeepsInv(st, msg);
    assert [Interrupt][1..] == [] && HandleBatch(st, [Interrupt]) == st;
    var after := HandleMessage(st, msg);
    assert MessagesOk(after, []) && HandleMessages(after, []) == after;
    assert [msg][1..] == [] && MessagesOk(st, [msg]) && HandleMessages(st, [msg]) == after;
  }

  lemma RunTwo(st: State, a: Step, b: Step)
    requires Inv(st) && StepOk(st, a) && StepOk(Next(st, a), b)
    ensures RunOk(st, [a] + [b]) && Run(st, [a] + [b]) == Next(Next(st, a), b)
  {
    hide Inv, StepOk, Next;
    var last := Next(Next(st, a), b);
    assert [b][1..] == [] && RunOk(last, []) && Run(last, []) == last;
    assert RunOk(Next(st, a), [b]) && Run(Next(st, a), [b]) == last;
    assert ([a] + [b])[0] == a && ([a] + [b])[1..] == [b];
  }

  /** And there a report of a hang-up besides input breaks the source's assertion that
      listening sockets are notified of reads only. */
  lemma HangUpIsNotARead(fd: Fd, port: Port)
    requires port != NO_PORT
    ensures Possible(Listening(fd, port))
    ensures var st, bits := Reached(Listening(fd, port)), {EPOLLIN, EPOLLHUP};
            && Registered(st, 1) && st.heap[1].desc.IsListeningSocket()
            && bits <= Interest(st.heap[1].desc) + {EPOLLERR, EPOLLHUP}
            && ErrorEvent !in EventMask(bits) && EventMask(bits) != {InEvent}
  {
    ListeningIsReached(fd, port);
    hide Possible, Reached;
    assert CloseEvent in EventMask({EPOLLIN, EPOLLHUP});
  }

  /** In every reachable state, what a registered descriptor's ports are told of was asked
      for, or is an error or a hang-up; nothing asked for that epoll reports without an error
      is left out; and a report is swallowed exactly when it is an error without input, or
      reports nothing at all. */
  lemma ReportsWereAskedFor(steps: seq<Step>, fd: Fd, bits: set<PollBit>)
    requires Possible(steps) && fd in Reached(steps).epoll
    requires bits <= Reached(steps).epoll[fd].bits + {EPOLLERR, EPOLLHUP}
    ensures var st := Reached(steps);
            && fd in st.socketMap && st.socketMap[fd] in st.heap
            && var d := st.heap[st.socketMap[fd]].desc;
               && EventMask(bits) <= d.CurrentMask() + {ErrorEvent, CloseEvent}
               && (InEvent in d.CurrentMask() && EPOLLIN in bits ==> InEvent in EventMask(bits) || ErrorEvent in EventMask(bits))
               && (OutEvent in d.CurrentMask() && EPOLLOUT in bits && EPOLLERR !in bits ==> OutEvent in EventMask(bits))
               && (EventMask(bits) == {} <==> if EPOLLERR in bits then EPOLLIN !in bits else bits <= {EPOLLET})
  {
    RegistrationsMatchMasks(steps, fd);
    hide *;
    var st := Reached(steps);
    ReportsOf(st.epoll[fd].bits, st.heap[st.socketMap[fd]].desc, bits);
  }

  lemma ReportsOf(asked: set<PollBit>, d: Descriptor, bits: set<PollBit>)
    requires BitsOf(asked, d) && bits <= asked + {EPOLLERR, EPOLLHUP}
    ensures EventMask(bits) <= d.CurrentMask() + {ErrorEvent, CloseEvent}
    ensures InEvent in d.CurrentMask() && EPOLLIN in bits ==> InEvent in EventMask(bits) || ErrorEvent in EventMask(bits)
    ensures OutEvent in d.CurrentMask() && EPOLLOUT in bits && EPOLLERR !in bits ==> OutEvent in EventMask(bits)
    ensures EventMask(bits) == {} <==> if EPOLLERR in bits then EPOLLIN !in bits else bits <= {EPOLLET}
  {
    assert EventMask(bits) != {} <==>
           ErrorEvent in EventMask(bits) || InEvent in EventMask(bits) || OutEvent in EventMask(bits) || CloseEvent in EventMask(bits);
    forall b | b in bits ensures b == EPOLLIN || b == EPOLLOUT || b == EPOLLERR || b == EPOLLHUP || b == EPOLLRDHUP || b == EPOLLET {
    }
    assert bits <= {EPOLLET} <==> !(EPOLLIN in bits || EPOLLOUT in bits || EPOLLERR in bits || EPOLLHUP in bits || EPOLLRDHUP in bits);
  }

  // ---- The timer.

  /** The timer is armed exactly when some timeout is pending and none of them is 0;
      then it is set to the earliest one. */
  lemma TimerArmedIff(st: State)
    requires Inv(st)
    ensures st.armed != 0 <==> st.timeouts != map[] && forall p :: p in st.timeouts ==> st.timeouts[p] != 0
    ensures forall p :: p in st.timeouts ==> st.armed <= st.timeouts[p]
    ensures st.timeouts != map[] ==> st.armed in st.timeouts.Values
  {
    if st.timeouts != map[] {
      assert IsLeast(st.timeouts.Values, st.armed);
      forall p | p in st.timeouts ensures st.armed <= st.timeouts[p] {
        assert st.timeouts[p] in st.timeouts.Values;
      }
    }
  }

  /** A timeout of 0 is pending but leaves the timer disarmed. */
  lemma ZeroTimeoutDisarms(port: Port)
    ensures var st := UpdateTimeout(Initial(), port, 0); port in st.timeouts && st.armed == 0
  {
    var timeouts := Initial().timeouts[port := 0];
    assert timeouts[port] in timeouts.Values && port in timeouts;
    assert IsLeast(timeouts.Values, Armed(timeouts));
  }
}
