/** The Linux event loop of runtime/bin/eventhandler_linux.cc as a state machine:
    interrupt messages from sockets, batches of epoll events and the timer.

    Descriptor objects live in an explicit heap keyed by their address, so that
    using a freed descriptor is expressible: an epoll registration holds an address,
    and an event that comes back carries it. Each socket message and each event
    carries the answer epoll gives if the handling of it asks epoll to add the
    descriptor. */
module EventLoop {
  import opened Descriptors

  type Fd = nat
  type Ptr = nat
  type SocketId = nat

  datatype PollBit = EPOLLIN | EPOLLOUT | EPOLLERR | EPOLLHUP | EPOLLRDHUP | EPOLLET

  // ---- Descriptors of either kind.

  datatype Descriptor = One(one: Single) | Many(many: Shared) {
    predicate IsListeningSocket() {
      Many?
    }

    function CurrentMask(): Mask {
      match this
      case One(s) => s.CurrentMask()
      case Many(m) => m.CurrentMask()
    }

    function SetPortAndMask(p: Port, mask: Mask): Descriptor {
      match this
      case One(s) => One(s.(port := p, mask := mask))
      case Many(m) => Many(m.SetPortAndMask(p, mask == {InEvent}))
    }

    function RemovePort(p: Port): Descriptor {
      match this
      case One(s) => One(s.(port := NO_PORT, mask := {}))
      case Many(m) => Many(m.RemovePort(p))
    }

    function ReturnTokens(p: Port, count: nat): Descriptor
      requires Knows(p)
    {
      match this
      case One(s) => One(s.Return(count))
      case Many(m) => Many(m.ReturnTokens(p, count))
    }

    function NotifyAll(): Descriptor {
      match this
      case One(s) => One(s.Spend())
      case Many(m) => Many(m.NotifyAll())
    }

    function NextNotify(): (Descriptor, Port)
      requires Many? ==> many.Coherent()
    {
      match this
      case One(s) => (One(s.Spend()), s.port)
      case Many(m) => (Many(m.NextNotify().0), m.NextNotify().1)
    }

    /** The ports a broadcast posts to. */
    function Listeners(): set<Port> {
      match this
      case One(s) => if s.port == NO_PORT then {} else {s.port}
      case Many(m) => m.ports.Keys
    }

    predicate Knows(p: Port) {
      match this
      case One(s) => s.port == p
      case Many(m) => p in m.ports
    }

    /** The tokens a port has left. */
    function Tokens(p: Port): int
      requires Knows(p)
    {
      match this
      case One(s) => s.tokens
      case Many(m) => m.ports[p].tokens
    }

    function Quota(): nat {
      if One? then SINGLE_QUOTA else SHARED_QUOTA
    }
  }

  /** A descriptor object. */
  datatype Info = Info(fd: Fd, desc: Descriptor)

  /** Token counts are in range, and the ring agrees with the map. */
  ghost predicate Sane(i: Info) {
    match i.desc
    case One(s) =>
      && !s.disableTokens
      && 0 <= s.tokens <= SINGLE_QUOTA
      && (s.port == NO_PORT ==> s.mask == {} && s.tokens == SINGLE_QUOTA)
    case Many(m) =>
      && !m.disableTokens
      && m.Coherent() && NO_PORT !in m.ports
      && (forall p :: p in m.ports ==> m.ports[p].tokens <= SHARED_QUOTA)
  }

  // ---- Sockets, messages and the state of the loop.

  /** A Socket object as the event handler sees it. `sent` says whether a message
      carrying its port has been handled; a closed socket has fd -1. */
  datatype Socket = Socket(fd: int, port: Port, listening: bool, sent: bool)

  datatype Registration = Registration(ptr: Ptr, bits: set<PollBit>)

  datatype Command =
    | ShutdownRead
    | ShutdownWrite
    | Close
    | ReturnToken(count: nat)
    | SetEventMask(mask: Mask)

  datatype Message =
    | TimerMessage(timerPort: Port, timeout: int)
    | ShutdownMessage
    | SocketMessage(id: SocketId, port: Port, command: Command, addOk: bool)

  /** What the handler did that ports can tell: events it posted to them for a descriptor,
      events it posted to one of them otherwise, tokens it took back from one, and one it
      began to serve. */
  datatype Record =
    | Notified(ptr: Ptr, ports: set<Port>, mask: Mask)
    | Told(port: Port, mask: Mask)
    | Returned(ptr: Ptr, port: Port, count: nat)
    | Added(ptr: Ptr, port: Port)

  datatype State = State(
    sockets: map<SocketId, Socket>,
    socketMap: map<Fd, Ptr>,
    heap: map<Ptr, Info>,
    epoll: map<Fd, Registration>,
    nextPtr: Ptr,
    log: seq<Record>,
    addsOk: bool,
    timeouts: map<Port, nat>,
    armed: nat,
    shutdown: bool)

  function Initial(): State {
    State(map[], map[], map[], map[], 1, [], true, map[], 0, false)
  }

  // ---- What ports have received and given back.

  /** The notifications posted to a port for a descriptor since the port was last added to it. */
  function Received(log: seq<Record>, ptr: Ptr, p: Port): nat {
    if log == [] then 0
    else
      var before := Received(log[..|log| - 1], ptr, p);
      match log[|log| - 1]
      case Notified(q, ports, _) => if q == ptr && p in ports then before + 1 else before
      case Added(q, port) => if q == ptr && port == p then 0 else before
      case _ => before
  }

  /** The tokens the port has returned since then. */
  function GivenBack(log: seq<Record>, ptr: Ptr, p: Port): nat {
    if log == [] then 0
    else
      var before := GivenBack(log[..|log| - 1], ptr, p);
      match log[|log| - 1]
      case Returned(q, port, count) => if q == ptr && port == p then before + count else before
      case Added(q, port) => if q == ptr && port == p then 0 else before
      case _ => before
  }

  predicate OpenOn(sockets: map<SocketId, Socket>, id: SocketId, fd: int) {
    id in sockets && sockets[id].fd == fd
  }

  /** What epoll is asked to report for a descriptor. */
  function Interest(d: Descriptor): set<PollBit> {
    {EPOLLRDHUP}
    + (if InEvent in d.CurrentMask() then {EPOLLIN} else {})
    + (if OutEvent in d.CurrentMask() then {EPOLLOUT} else {})
    + (if d.IsListeningSocket() then {} else {EPOLLET})
  }

  // ---- Keeping epoll in step with a descriptor's mask.

  function AddToEpoll(st: State, ptr: Ptr, ok: bool): State
    requires ptr in st.heap
  {
    var i := st.heap[ptr];
    if ok then st.(epoll := st.epoll[i.fd := Registration(ptr, Interest(i.desc))])
    else st.(heap := st.heap[ptr := Info(i.fd, i.desc.NotifyAll())],
             log := st.log + [Notified(ptr, i.desc.Listeners(), {CloseEvent})],
             addsOk := false)
  }

  function UpdateEpoll(st: State, ptr: Ptr, oldMask: Mask, ok: bool): State
    requires ptr in st.heap
  {
    var i := st.heap[ptr];
    var newMask := i.desc.CurrentMask();
    if oldMask != {} && newMask == {} then st.(epoll := st.epoll - {i.fd})
    else if oldMask == {} && newMask != {} then AddToEpoll(st, ptr, ok)
    else if oldMask != {} && newMask != {} && oldMask != newMask then
      AddToEpoll(st.(epoll := st.epoll - {i.fd}), ptr, ok)
    else st
  }

  /** Replaces a descriptor's state and brings epoll in step with it. */
  function Replace(st: State, ptr: Ptr, i: Info, ok: bool): State
    requires ptr in st.heap
  {
    UpdateEpoll(st.(heap := st.heap[ptr := i]), ptr, st.heap[ptr].desc.CurrentMask(), ok)
  }

  // ---- Interrupt messages.

  /** Looks the descriptor of an fd up, creating it when there is none. */
  function GetDescriptorInfo(st: State, fd: Fd, listening: bool): (State, Ptr) {
    if fd in st.socketMap then (st, st.socketMap[fd])
    else
      var desc := if listening then Many(NewShared(false)) else One(NewSingle(false));
      (st.(socketMap := st.socketMap[fd := st.nextPtr], heap := st.heap[st.nextPtr := Info(fd, desc)],
           nextPtr := st.nextPtr + 1),
       st.nextPtr)
  }

  /** Whether no other socket is open on the fd of `id`: what the registry of
      listening sockets answers. */
  predicate LastCloser(sockets: map<SocketId, Socket>, id: SocketId)
    requires id in sockets
  {
    forall other :: other in sockets && other != id ==> sockets[other].fd != sockets[id].fd
  }

  function ClosePort(i: Info, port: Port): Info {
    if port == NO_PORT then i else Info(i.fd, i.desc.RemovePort(port))
  }

  /** Closes a socket, and frees the descriptor unless other listeners share it. */
  function HandleClose(st: State, ptr: Ptr, msg: Message): State
    requires msg.SocketMessage? && msg.id in st.sockets && ptr in st.heap
  {
    var fd := st.heap[ptr].fd;
    var st1 := Replace(st, ptr, ClosePort(st.heap[ptr], msg.port), msg.addOk);
    var st2 :=
      if st.heap[ptr].desc.IsListeningSocket() && !LastCloser(st.sockets, msg.id) then st1
      else st1.(socketMap := st1.socketMap - {fd}, heap := st1.heap - {ptr});
    st2.(sockets := st2.sockets[msg.id := st2.sockets[msg.id].(fd := -1)],
         log := st2.log + [Told(msg.port, {DestroyedEvent})])
  }

  function HandleCommand(st: State, ptr: Ptr, msg: Message): State
    requires msg.SocketMessage? && msg.id in st.sockets && ptr in st.heap
    requires msg.command.ReturnToken? ==> st.heap[ptr].desc.Knows(msg.port)
  {
    var i := st.heap[ptr];
    match msg.command
    case ShutdownRead => st
    case ShutdownWrite => st
    case Close => HandleClose(st, ptr, msg)
    case ReturnToken(count) =>
      Replace(st.(log := st.log + [Returned(ptr, msg.port, count)]), ptr,
              Info(i.fd, i.desc.ReturnTokens(msg.port, count)), msg.addOk)
    case SetEventMask(mask) =>
      Replace(st.(log := if i.desc.Knows(msg.port) then st.log else st.log + [Added(ptr, msg.port)]), ptr,
              Info(i.fd, i.desc.SetPortAndMask(msg.port, mask)), msg.addOk)
  }

  /** The state when a message has found its descriptor. */
  function Prepared(st: State, msg: Message): (State, Ptr)
    requires msg.SocketMessage? && msg.id in st.sockets && st.sockets[msg.id].fd >= 0
  {
    var s := st.sockets[msg.id];
    var (st1, ptr) := GetDescriptorInfo(st, s.fd, s.listening);
    (st1.(sockets := st1.sockets[msg.id := s.(sent := s.sent || msg.port != NO_PORT)]), ptr)
  }

  /** What a message must satisfy when it is handled, by the way messages are sent:
      a socket sends its own, legal port (the finalizer of a socket that never sent
      one sends none), asks only for events its kind allows and returns some tokens, but no
      more than it has received notifications and not yet returned. */
  ghost predicate Disciplined(st: State, msg: Message) {
    msg.SocketMessage? ==>
      && msg.id in st.sockets
      && var s := st.sockets[msg.id];
         s.fd >= 0 ==>
           && (if msg.port == NO_PORT then msg.command.Close? && !s.sent else msg.port == s.port)
           && (match msg.command
               case ShutdownRead => !s.listening
               case ShutdownWrite => !s.listening
               case Close => true
               case SetEventMask(mask) => mask <= (if s.listening then {InEvent} else {InEvent, OutEvent})
               case ReturnToken(count) =>
                 && count > 0
                 && exists ptr :: GivenBack(st.log, ptr, msg.port) + count <= Received(st.log, ptr, msg.port))
  }

  /** Sets the deadline of a port or, when negative, removes it, and rearms the timer. */
  function UpdateTimeout(st: State, port: Port, timeout: int): State {
    var timeouts := if timeout < 0 then st.timeouts - {port} else st.timeouts[port := timeout];
    st.(timeouts := timeouts, armed := Armed(timeouts))
  }

  /** The absolute time the timer is set to: the least deadline, or 0, which disarms it. */
  function Armed(timeouts: map<Port, nat>): nat {
    if timeouts == map[] then 0 else Least(timeouts.Values)
  }

  predicate IsLeast(times: set<nat>, t: nat) {
    t in times && forall u :: u in times ==> t <= u
  }

  function Least(times: set<nat>): (t: nat)
    requires times != {}
    ensures IsLeast(times, t)
  {
    LeastExists(times);
    var t :| IsLeast(times, t);
    t
  }

  lemma {:induction false} LeastExists(times: set<nat>)
    requires times != {}
    ensures exists t :: IsLeast(times, t)
    decreases |times|
  {
    var x :| x in times;
    var rest := times - {x};
    assert forall u :: u in times ==> u == x || u in rest;
    if rest == {} {
      assert IsLeast(times, x);
    } else {
      LeastExists(rest);
      var m :| IsLeast(rest, m);
      assert IsLeast(times, if m <= x then m else x);
    }
  }

  /** A port whose deadline is the least one: what the queue may give as its minimum. */
  predicate IsEarliest(timeouts: map<Port, nat>, p: Port) {
    p in timeouts && forall q :: q in timeouts ==> timeouts[p] <= timeouts[q]
  }

  /** Whoever was notified for a descriptor, and has not closed its socket, is on the
      descriptor of its fd. */
  lemma NotifiedIsKnown(st: State, id: SocketId, ptr: Ptr)
    requires Inv(st) && id in st.sockets && st.sockets[id].fd >= 0 && Received(st.log, ptr, st.sockets[id].port) > 0
    ensures ptr in st.heap && st.heap[ptr].desc.Knows(st.sockets[id].port)
    ensures st.sockets[id].fd in st.socketMap && st.socketMap[st.sockets[id].fd] == ptr
  {
    var p := st.sockets[id].port;
    assert !Retired(st.sockets, p);
    assert ptr in st.heap && p in st.heap[ptr].desc.Listeners();
    assert SocketsMatch(st.sockets, st.heap[ptr]);
    assert Owned(st.sockets, st.heap[ptr].fd, p);
  }

  /** So a disciplined message finds its descriptor, and on it the port that gives tokens back. */
  lemma MessageIsKnown(st: State, msg: Message)
    requires Inv(st) && Disciplined(st, msg) && msg.SocketMessage? && st.sockets[msg.id].fd >= 0
    ensures var (st', ptr) := Prepared(st, msg);
            && msg.id in st'.sockets && ptr in st'.heap
            && (msg.command.ReturnToken? ==> st'.heap[ptr].desc.Knows(msg.port))
  {
    if msg.command.ReturnToken? {
      hide Inv;
      var q :| GivenBack(st.log, q, msg.port) + msg.command.count <= Received(st.log, q, msg.port);
      NotifiedIsKnown(st, msg.id, q);
    }
  }

  function HandleMessage(st: State, msg: Message): State
    requires Inv(st) && Disciplined(st, msg)
  {
    match msg
    case TimerMessage(port, timeout) => UpdateTimeout(st, port, timeout)
    case ShutdownMessage => st.(shutdown := true)
    case SocketMessage(id, port, command, addOk) =>
      if st.sockets[id].fd < 0 then st
      else
        MessageIsKnown(st, msg);
        HandleCommand(Prepared(st, msg).0, Prepared(st, msg).1, msg)
  }

  // ---- Epoll events.

  datatype PollEvent =
    | Interrupt
    | Timer(first: Port)
    | Ready(ptr: Ptr, bits: set<PollBit>, addOk: bool)

  /** The event bits reported to Dart for the bits epoll reports. */
  function EventMask(bits: set<PollBit>): Mask {
    if EPOLLERR in bits then (if EPOLLIN in bits then {ErrorEvent} else {})
    else
      (if EPOLLIN in bits then {InEvent} else {})
      + (if EPOLLOUT in bits then {OutEvent} else {})
      + (if EPOLLHUP in bits || EPOLLRDHUP in bits then {CloseEvent} else {})
  }

  function HandleReady(st: State, e: PollEvent): State
    requires e.Ready? && e.ptr in st.heap && Sane(st.heap[e.ptr])
  {
    var i, mask := st.heap[e.ptr], EventMask(e.bits);
    if ErrorEvent in mask then
      Replace(st.(log := st.log + [Notified(e.ptr, i.desc.Listeners(), mask)]), e.ptr, Info(i.fd, i.desc.NotifyAll()), e.addOk)
    else if mask != {} then
      var (desc, port) := i.desc.NextNotify();
      var st1 := Replace(st, e.ptr, Info(i.fd, desc), e.addOk);
      st1.(log := st1.log + [Notified(e.ptr, {port}, mask)])
    else st
  }

  /** The timer has fired: posts to the port at the front of the queue, if any, and
      rearms. */
  function HandleTimer(st: State, first: Port): State {
    if st.timeouts == map[] then st.(armed := 0)
    else
      var rest := st.timeouts - {first};
      st.(timeouts := rest, armed := Armed(rest), log := st.log + [Told(first, {})])
  }

  function HandleEvent(st: State, e: PollEvent): State
    requires e.Ready? ==> e.ptr in st.heap && Sane(st.heap[e.ptr])
  {
    match e
    case Interrupt => st
    case Timer(first) => HandleTimer(st, first)
    case Ready(_, _, _) => HandleReady(st, e)
  }

  // ---- The invariant.

  /** Some socket open on `fd` has sent port `p`. */
  ghost predicate Owned(sockets: map<SocketId, Socket>, fd: Fd, p: Port) {
    exists id :: OpenOn(sockets, id, fd) && sockets[id].sent && sockets[id].port == p
  }

  ghost predicate SocketsOk(sockets: map<SocketId, Socket>) {
    && (forall id :: id in sockets ==> sockets[id].port != NO_PORT)
    && (forall id, other :: id in sockets && other in sockets && id != other ==> sockets[id].port != sockets[other].port)
    && (forall id, other :: id in sockets && other in sockets && id != other && sockets[id].fd == sockets[other].fd >= 0 ==>
          sockets[id].listening && sockets[other].listening)
  }

  /** The sockets open on the descriptor's fd: at least one, all of the descriptor's
      kind, and among them an owner for every port it knows. */
  ghost predicate SocketsMatch(sockets: map<SocketId, Socket>, i: Info) {
    && (exists id :: OpenOn(sockets, id, i.fd))
    && (forall id :: OpenOn(sockets, id, i.fd) ==> sockets[id].listening == i.desc.IsListeningSocket())
    && (forall p :: p in i.desc.Listeners() ==> Owned(sockets, i.fd, p))
  }

  /** A descriptor registered with epoll asks for something and is registered under its
      own address with exactly the bits of its mask; as long as every add has
      succeeded, a descriptor that asks for something is registered. */
  ghost predicate Agrees(i: Info, ptr: Ptr, epoll: map<Fd, Registration>, addsOk: bool) {
    && (i.fd in epoll ==> i.desc.CurrentMask() != {} && epoll[i.fd] == Registration(ptr, Interest(i.desc)))
    && (addsOk && i.desc.CurrentMask() != {} ==> i.fd in epoll)
  }

  /** The map from fds to descriptors and the descriptors' own fds are inverse, every
      registered fd has a descriptor, and fresh addresses are unused. */
  ghost predicate TablesOk(socketMap: map<Fd, Ptr>, heap: map<Ptr, Info>, epoll: map<Fd, Registration>, nextPtr: Ptr) {
    && (forall ptr :: ptr in heap ==> ptr < nextPtr && heap[ptr].fd in socketMap && socketMap[heap[ptr].fd] == ptr)
    && (forall fd :: fd in socketMap ==> socketMap[fd] in heap && heap[socketMap[fd]].fd == fd)
    && (forall fd :: fd in epoll ==> fd in socketMap)
  }

  ghost predicate AllSane(heap: map<Ptr, Info>) {
    forall ptr :: ptr in heap ==> Sane(heap[ptr])
  }

  ghost predicate AllMatch(sockets: map<SocketId, Socket>, heap: map<Ptr, Info>) {
    forall ptr :: ptr in heap ==> SocketsMatch(sockets, heap[ptr])
  }

  ghost predicate AllAgree(heap: map<Ptr, Info>, epoll: map<Fd, Registration>, addsOk: bool) {
    forall ptr :: ptr in heap ==> Agrees(heap[ptr], ptr, epoll, addsOk)
  }

  /** The tables agree with one another and with epoll. */
  ghost predicate Consistent(st: State) {
    && SocketsOk(st.sockets)
    && TablesOk(st.socketMap, st.heap, st.epoll, st.nextPtr)
    && AllSane(st.heap)
    && AllMatch(st.sockets, st.heap)
    && AllAgree(st.heap, st.epoll, st.addsOk)
    && st.armed == Armed(st.timeouts)
  }

  /** For each port of a descriptor, the tokens it has left and the notifications it has
      received and not returned add up to its quota. `unposted` are ports whose token is
      already spent on a notification that is still to be posted. */
  ghost predicate Conserved(d: Descriptor, ptr: Ptr, log: seq<Record>, unposted: set<Port>) {
    forall p :: p in d.Listeners() ==>
                  d.Tokens(p) + Received(log, ptr, p) - GivenBack(log, ptr, p) + (if p in unposted then 1 else 0) == d.Quota()
  }

  ghost predicate AllConserved(heap: map<Ptr, Info>, log: seq<Record>) {
    forall ptr :: ptr in heap ==> Conserved(heap[ptr].desc, ptr, log, {})
  }

  /** A closed socket had this port. */
  ghost predicate Retired(sockets: map<SocketId, Socket>, p: Port) {
    exists id :: id in sockets && sockets[id].port == p && sockets[id].fd < 0
  }

  /** A port that has been notified for a descriptor is still on it, or its socket is closed. */
  ghost predicate AllServed(sockets: map<SocketId, Socket>, heap: map<Ptr, Info>, log: seq<Record>) {
    forall ptr: Ptr, p: Port :: Received(log, ptr, p) > 0 ==>
                                  (ptr in heap && p in heap[ptr].desc.Listeners()) || Retired(sockets, p)
  }

  ghost predicate Inv(st: State) {
    Consistent(st) && AllConserved(st.heap, st.log) && AllServed(st.sockets, st.heap, st.log)
  }
}
