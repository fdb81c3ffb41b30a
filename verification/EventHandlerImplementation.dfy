/** EventHandlerImplementation of runtime/bin/eventhandler_linux.cc over the descriptor
    objects themselves: the loop's steps, which are told over values, are carried out by
    calls on objects that keep a map and a ring each. What module EventLoopRuns proves about
    runs holds of it, and no assertion of those objects fails. */
module EventHandlerImplementation {
  import opened Descriptors
  import opened EventLoop
  import opened EventLoopSafety
  import opened EventLoopMessages
  import opened EventLoopRuns
  import opened DescriptorTable

  /** What a command does to its descriptor, when it does anything. */
  ghost function ActionOf(msg: Message): Action
    requires msg.SocketMessage? && (msg.command.ReturnToken? || msg.command.SetEventMask? || msg.command.Close?)
  {
    match msg.command
    case ReturnToken(count) => GiveBack(msg.port, count)
    case SetEventMask(mask) => Ask(msg.port, mask)
    case Close => Leave(msg.port)
  }

  /** The objects' own assertions hold whenever the loop's do. */
  lemma CommandCanAct(st: State, ptr: Ptr, msg: Message)
    requires Inv(st) && msg.SocketMessage? && ptr in st.heap && msg.id in st.sockets && AssertionsHold(st, ptr, msg)
    requires msg.command.ReturnToken? || msg.command.SetEventMask? || (msg.command.Close? && msg.port != NO_PORT)
    ensures CanAct(st.heap[ptr].desc, ActionOf(msg))
  {
    assert Sane(st.heap[ptr]);
  }

  lemma ReadyCanAct(st: State, ptr: Ptr)
    requires Inv(st) && ptr in st.heap
    ensures CanAct(st.heap[ptr].desc, TellAll) && CanAct(st.heap[ptr].desc, TellNext)
  {
    assert Sane(st.heap[ptr]);
  }

  lemma ReplaceHas(st: State, ptr: Ptr, i: Info, ok: bool)
    requires ptr in st.heap
    ensures ptr in Replace(st, ptr, i, ok).heap
  {
  }

  lemma FreshPtr(st: State)
    requires Inv(st)
    ensures st.nextPtr !in st.heap
  {
  }

  class Handler {
    const table: Table
    var sockets: map<SocketId, Socket>
    var socketMap: map<Fd, Ptr>
    var epoll: map<Fd, Registration>
    var nextPtr: Ptr
    var log: seq<Record>
    ghost var addsOk: bool
    var timeouts: map<Port, nat>
    var armed: nat
    var shutdown: bool

    ghost function View(): State
      reads this, table
    {
      State(sockets, socketMap, table.heap, epoll, nextPtr, log, addsOk, timeouts, armed, shutdown)
    }

    ghost predicate Ok()
      reads this, table, table.repr
    {
      table.Valid() && this !in table.repr
    }

    constructor ()
      ensures Ok() && View() == Initial() && Inv(View()) && fresh(table) && table.repr == {}
    {
      table := new Table();
      sockets, socketMap, epoll, nextPtr, log := map[], map[], map[], 1, [];
      addsOk, timeouts, armed, shutdown := true, map[], 0, false;
      new;
      InitialInv();
    }

    /** What epoll is to report for a descriptor. */
    method Bits(ptr: Ptr) returns (bits: set<PollBit>)
      requires Ok() && ptr in table.heap
      ensures bits == Interest(table.heap[ptr].desc)
    {
      hide AllOk, Indexed;
      var mask := table.GetMask(ptr);
      var listening := table.IsListeningSocket(ptr);
      bits := {EPOLLRDHUP};
      if InEvent in mask {
        bits := bits + {EPOLLIN};
      }
      if OutEvent in mask {
        bits := bits + {EPOLLOUT};
      }
      if !listening {
        bits := bits + {EPOLLET};
      }
    }

    /** Asks epoll to watch the descriptor; when epoll refuses, the ports are told that
        the descriptor is closed. */
    method AddToEpollInstance(ptr: Ptr, ok: bool)
      requires Ok() && ptr in table.heap
      modifies this`epoll, this`log, this`addsOk, table, table.repr
      ensures Ok() && fresh(table.repr - old(table.repr)) && View() == AddToEpoll(old(View()), ptr, ok)
    {
      hide AllOk, Indexed, Interest;
      table.AllCoherent(ptr);
      var bits := Bits(ptr);
      var fd := table.GetFd(ptr);
      if ok {
        epoll := epoll[fd := Registration(ptr, bits)];
      } else {
        var ports := table.Perform(ptr, TellAll);
        log := log + [Notified(ptr, ports, {CloseEvent})];
        addsOk := false;
      }
    }

    method UpdateEpollInstance(oldMask: Mask, ptr: Ptr, ok: bool)
      requires Ok() && ptr in table.heap
      modifies this`epoll, this`log, this`addsOk, table, table.repr
      ensures Ok() && fresh(table.repr - old(table.repr)) && View() == UpdateEpoll(old(View()), ptr, oldMask, ok)
    {
      hide AllOk, Indexed, AddToEpoll;
      var newMask := table.GetMask(ptr);
      var fd := table.GetFd(ptr);
      if oldMask != {} && newMask == {} {
        epoll := epoll - {fd};
      } else if oldMask == {} && newMask != {} {
        AddToEpollInstance(ptr, ok);
      } else if oldMask != {} && newMask != {} && oldMask != newMask {
        epoll := epoll - {fd};
        AddToEpollInstance(ptr, ok);
      }
    }

    /** Does something to a descriptor, records it, and brings epoll in step. */
    method Change(ptr: Ptr, a: Action, record: seq<Record>, ok: bool)
      requires Ok() && ptr in table.heap && CanAct(table.heap[ptr].desc, a)
      modifies this`epoll, this`log, this`addsOk, table, table.repr
      ensures Ok() && fresh(table.repr - old(table.repr))
      ensures var st := old(View());
              View() == Replace(st.(log := st.log + record), ptr, Info(st.heap[ptr].fd, Act(st.heap[ptr].desc, a)), ok)
    {
      hide AllOk, Indexed, UpdateEpoll, Act, CanAct, Posted;
      var oldMask := table.GetMask(ptr);
      var _ := table.Perform(ptr, a);
      log := log + record;
      UpdateEpollInstance(oldMask, ptr, ok);
    }

    method GetDescriptorInfo(fd: Fd, listening: bool) returns (ptr: Ptr)
      requires Ok() && nextPtr !in table.heap
      modifies this`socketMap, this`nextPtr, table
      ensures Ok() && fresh(table.repr - old(table.repr))
      ensures (View(), ptr) == EventLoop.GetDescriptorInfo(old(View()), fd, listening)
    {
      hide AllOk, Indexed;
      if fd in socketMap {
        return socketMap[fd];
      }
      ptr := nextPtr;
      nextPtr := nextPtr + 1;
      table.Create(ptr, fd, listening);
      socketMap := socketMap[fd := ptr];
    }

    /** Finds the descriptor a message is for, and notes that its socket has sent a port. */
    method Prepare(msg: Message) returns (ptr: Ptr)
      requires Ok() && nextPtr !in table.heap && msg.SocketMessage? && msg.id in sockets && sockets[msg.id].fd >= 0
      modifies this`sockets, this`socketMap, this`nextPtr, table
      ensures Ok() && fresh(table.repr - old(table.repr)) && (View(), ptr) == Prepared(old(View()), msg)
    {
      hide AllOk, Indexed;
      var s := sockets[msg.id];
      ptr := GetDescriptorInfo(s.fd, s.listening);
      sockets := sockets[msg.id := s.(sent := s.sent || msg.port != NO_PORT)];
    }

    /** Takes a port off a descriptor and brings epoll in step. */
    method Withdraw(ptr: Ptr, port: Port, ok: bool)
      requires Ok() && ptr in table.heap && (port != NO_PORT ==> CanAct(table.heap[ptr].desc, Leave(port)))
      modifies this`epoll, this`log, this`addsOk, table, table.repr
      ensures Ok() && fresh(table.repr - old(table.repr)) && ptr in table.heap
      ensures View() == Replace(old(View()), ptr, ClosePort(old(View()).heap[ptr], port), ok)
    {
      hide AllOk, Indexed, UpdateEpoll, CanAct;
      ReplaceHas(View(), ptr, ClosePort(View().heap[ptr], port), ok);
      if port != NO_PORT {
        assert log + [] == log;
        Change(ptr, Leave(port), [], ok);
      } else {
        assert table.heap[ptr := table.heap[ptr]] == table.heap;
        var oldMask := table.GetMask(ptr);
        UpdateEpollInstance(oldMask, ptr, ok);
      }
    }

    method CloseCommand(ptr: Ptr, msg: Message)
      requires Ok() && ptr in table.heap && msg.SocketMessage? && msg.command.Close? && msg.id in sockets
      requires msg.port != NO_PORT ==> CanAct(table.heap[ptr].desc, Leave(msg.port))
      modifies this, table, table.repr
      ensures Ok() && fresh(table.repr - old(table.repr)) && View() == HandleClose(old(View()), ptr, msg)
    {
      hide AllOk, Indexed, Replace, CanAct, ClosePort;
      var fd := table.GetFd(ptr);
      var listening := table.IsListeningSocket(ptr);
      var last := LastCloser(sockets, msg.id);
      Withdraw(ptr, msg.port, msg.addOk);
      if !listening || last {
        socketMap := socketMap - {fd};
        table.Free(ptr);
      }
      sockets := sockets[msg.id := sockets[msg.id].(fd := -1)];
      log := log + [Told(msg.port, {DestroyedEvent})];
    }

    method Command(ptr: Ptr, msg: Message)
      requires Ok() && Inv(View()) && msg.SocketMessage? && msg.id in sockets && ptr in table.heap
      requires AssertionsHold(View(), ptr, msg)
      modifies this, table, table.repr
      ensures Ok() && fresh(table.repr - old(table.repr))
      ensures msg.command.ReturnToken? ==> old(View()).heap[ptr].desc.Knows(msg.port)
      ensures View() == HandleCommand(old(View()), ptr, msg)
    {
      hide AllOk, Indexed, Replace, CanAct, HandleClose, Inv;
      if (msg.command.Close? && msg.port != NO_PORT) || msg.command.ReturnToken? || msg.command.SetEventMask? {
        CommandCanAct(View(), ptr, msg);
      }
      match msg.command
      case ShutdownRead =>
      case ShutdownWrite =>
      case Close => CloseCommand(ptr, msg);
      case ReturnToken(count) =>
        Change(ptr, GiveBack(msg.port, count), [Returned(ptr, msg.port, count)], msg.addOk);
      case SetEventMask(mask) =>
        var known := table.Knows(ptr, msg.port);
        assert log + [] == log;
        Change(ptr, Ask(msg.port, mask), if known then [] else [Added(ptr, msg.port)], msg.addOk);
    }

    method HandleSocketMessage(msg: Message)
      requires Ok() && Inv(View()) && Disciplined(View(), msg) && msg.SocketMessage? && msg.id in sockets && sockets[msg.id].fd >= 0
      modifies this, table, table.repr
      ensures Ok() && fresh(table.repr - old(table.repr)) && View() == HandleMessage(old(View()), msg)
    {
      hide Inv, Disciplined, Prepared, HandleCommand, AllOk, Indexed, AssertionsHold, Meets;
      MessageMeets(View(), msg);
      MessageAssertionsHold(View(), msg);
      FreshPtr(View());
      var ptr := Prepare(msg);
      Command(ptr, msg);
    }

    method HandleOne(msg: Message)
      requires Ok() && Inv(View()) && Disciplined(View(), msg)
      modifies this, table, table.repr
      ensures Ok() && fresh(table.repr - old(table.repr)) && View() == HandleMessage(old(View()), msg) && Inv(View())
    {
      hide Inv, Prepared, HandleCommand, AllOk, Indexed;
      MessageKeepsInv(View(), msg);
      match msg
      case TimerMessage(port, timeout) =>
        timeouts := if timeout < 0 then timeouts - {port} else timeouts[port := timeout];
        armed := Armed(timeouts);
      case ShutdownMessage =>
        shutdown := true;
      case SocketMessage(id, _, _, _) =>
        if sockets[id].fd >= 0 {
          HandleSocketMessage(msg);
        }
    }

    /** Handles the messages read from the interrupt pipe, in order. */
    method HandleInterruptFd(messages: seq<Message>)
      requires Ok() && Inv(View()) && MessagesOk(View(), messages)
      modifies this, table, table.repr
      ensures Ok() && fresh(table.repr - old(table.repr))
      ensures View() == HandleMessages(old(View()), messages) && Inv(View())
    {
      hide Inv, AllOk, Indexed, Disciplined, HandleMessage;
      for k := 0 to |messages|
        invariant Ok() && fresh(table.repr - old(table.repr))
        invariant Inv(View()) && MessagesOk(View(), messages[k..])
        invariant HandleMessages(View(), messages[k..]) == HandleMessages(old(View()), messages)
      {
        assert messages[k..][0] == messages[k] && messages[k..][1..] == messages[k + 1..];
        HandleOne(messages[k]);
      }
    }

    /** Posts to every port of a descriptor, and brings epoll in step. */
    method TellAllPorts(ptr: Ptr, mask: Mask, ok: bool)
      requires Ok() && ptr in table.heap && CanAct(table.heap[ptr].desc, TellAll)
      modifies this`epoll, this`log, this`addsOk, table, table.repr
      ensures Ok() && fresh(table.repr - old(table.repr))
      ensures var st := old(View());
              var i := st.heap[ptr];
              View() == Replace(st.(log := st.log + [Notified(ptr, i.desc.Listeners(), mask)]), ptr, Info(i.fd, i.desc.NotifyAll()), ok)
    {
      hide AllOk, Indexed, UpdateEpoll, CanAct;
      var oldMask := table.GetMask(ptr);
      var ports := table.Perform(ptr, TellAll);
      log := log + [Notified(ptr, ports, mask)];
      UpdateEpollInstance(oldMask, ptr, ok);
    }

    /** Posts to the port whose turn it is, which is a real one. */
    method TellNextPort(ptr: Ptr, mask: Mask, ok: bool)
      requires Ok() && ptr in table.heap && CanAct(table.heap[ptr].desc, TellNext)
      requires (table.heap[ptr].desc.Many? ==> table.heap[ptr].desc.many.Coherent()) && table.heap[ptr].desc.NextNotify().1 != NO_PORT
      modifies this`epoll, this`log, this`addsOk, table, table.repr
      ensures Ok() && fresh(table.repr - old(table.repr))
      ensures var st := old(View());
              var (desc, port) := st.heap[ptr].desc.NextNotify();
              var st1 := Replace(st, ptr, Info(st.heap[ptr].fd, desc), ok);
              View() == st1.(log := st1.log + [Notified(ptr, {port}, mask)])
    {
      hide AllOk, Indexed, UpdateEpoll, CanAct;
      var oldMask := table.GetMask(ptr);
      var ports := table.Perform(ptr, TellNext);
      assert NO_PORT !in ports;
      UpdateEpollInstance(oldMask, ptr, ok);
      log := log + [Notified(ptr, ports, mask)];
    }

    method HandleReadyEvent(e: PollEvent)
      requires Ok() && e.Ready? && Inv(View()) && Registered(View(), e.ptr)
      modifies this`epoll, this`log, this`addsOk, table, table.repr
      ensures Ok() && fresh(table.repr - old(table.repr))
      ensures Sane(old(View()).heap[e.ptr]) && View() == HandleReady(old(View()), e)
    {
      hide Inv, Sane, AllOk, Indexed, Replace, CanAct, EventMask;
      NextPortIsReal(View(), e.ptr);
      ReadyCanAct(View(), e.ptr);
      var mask := EventMask(e.bits);
      if ErrorEvent in mask {
        TellAllPorts(e.ptr, mask, e.addOk);
      } else if mask != {} {
        TellNextPort(e.ptr, mask, e.addOk);
      }
    }

    method HandleTimerFd(first: Port)
      requires Ok()
      modifies this`log, this`timeouts, this`armed
      ensures Ok() && View() == HandleTimer(old(View()), first)
    {
      hide AllOk, Indexed;
      if timeouts != map[] {
        log := log + [Told(first, {})];
        timeouts := timeouts - {first};
      }
      armed := Armed(timeouts);
    }

    /** Handles a batch: all the events first, then, if the interrupt pipe was among
        them, the messages in it. */
    method HandleEvents(events: seq<PollEvent>, messages: seq<Message>)
      requires Ok() && Inv(View()) && StepOk(View(), Wake(events, messages))
      modifies this, table, table.repr
      ensures Ok() && fresh(table.repr - old(table.repr))
      ensures View() == Next(old(View()), Wake(events, messages)) && Inv(View())
    {
      hide Inv, Sane, HandleReady, HandleTimer, AllOk, Indexed;
      var interruptSeen := false;
      for k := 0 to |events|
        invariant Ok() && fresh(table.repr - old(table.repr))
        invariant Inv(View()) && BatchOk(View(), events[k..])
        invariant HandleBatch(View(), events[k..]) == HandleBatch(old(View()), events)
        invariant interruptSeen <==> Interrupt in events[..k]
      {
        assert events[k..][0] == events[k] && events[k..][1..] == events[k + 1..];
        assert events[..k + 1] == events[..k] + [events[k]];
        EventKeepsBatch(View(), events[k..]);
        match events[k]
        case Interrupt => interruptSeen := true;
        case Timer(first) => HandleTimerFd(first);
        case Ready(_, _, _) => HandleReadyEvent(events[k]);
      }
      assert events[..|events|] == events;
      if interruptSeen {
        HandleInterruptFd(messages);
      }
    }

    /** A socket becomes known to the handler. */
    method OpenSocket(id: SocketId, s: Socket)
      requires Ok() && Inv(View()) && MayOpen(View(), id, s)
      modifies this`sockets
      ensures Ok() && View() == Next(old(View()), Open(id, s)) && Inv(View())
    {
      OpenKeepsInv(View(), id, s);
      hide Inv, AllOk, Indexed;
      sockets := sockets[id := s];
    }

    /** The loop, over any run: the objects end up standing for the state that run reaches. */
    method Poll(steps: seq<Step>)
      requires Ok() && Inv(View()) && RunOk(View(), steps)
      modifies this, table, table.repr
      ensures Ok() && fresh(table.repr - old(table.repr)) && View() == EventLoopRuns.Run(old(View()), steps) && Inv(View())
      decreases |steps|
    {
      hide Inv, AllOk, Indexed, Next;
      if steps != [] {
        match steps[0] {
          case Open(id, s) => OpenSocket(id, s);
          case Wake(events, messages) => HandleEvents(events, messages);
        }
        Poll(steps[1..]);
      }
    }
  }

  /** A new handler after any possible run. */
  method PollFromNew(steps: seq<Step>) returns (h: Handler)
    requires Possible(steps)
    ensures h.Ok() && h.View() == Reached(steps)
  {
    h := new Handler();
    h.Poll(steps);
  }
}
