/** Conservation of tokens: for every port of every live descriptor, the tokens it has left
    and the notifications it has received and not returned, counted from the log of what the
    handler posted and took back, add up to its quota. */
module EventLoopLedger {
  import opened Descriptors
  import opened EventLoop
  import opened EventLoopSafety

  // ---- Counting along the log.

  lemma OneMoreRecord(log: seq<Record>, r: Record, ptr: Ptr, p: Port)
    ensures Received(log + [r], ptr, p) ==
            match r
            case Notified(q, ports, _) => Received(log, ptr, p) + (if q == ptr && p in ports then 1 else 0)
            case Added(q, port) => if q == ptr && port == p then 0 else Received(log, ptr, p)
            case _ => Received(log, ptr, p)
    ensures GivenBack(log + [r], ptr, p) ==
            match r
            case Returned(q, port, count) => GivenBack(log, ptr, p) + (if q == ptr && port == p then count else 0)
            case Added(q, port) => if q == ptr && port == p then 0 else GivenBack(log, ptr, p)
            case _ => GivenBack(log, ptr, p)
  {
    assert (log + [r])[..|log|] == log;
  }

  /** The record is about no descriptor but this one. */
  ghost predicate OnlyAbout(r: Record, ptr: Ptr) {
    r.Told? || r.ptr == ptr
  }

  /** Records were added to the log, about one descriptor. */
  ghost predicate Grows(log: seq<Record>, log': seq<Record>, ptr: Ptr) {
    && |log| <= |log'| && log'[..|log|] == log
    && forall k :: |log| <= k < |log'| ==> OnlyAbout(log'[k], ptr)
  }

  lemma GrowsByOne(log: seq<Record>, log': seq<Record>, r: Record, ptr: Ptr)
    requires Grows(log, log', ptr) && OnlyAbout(r, ptr)
    ensures Grows(log, log' + [r], ptr)
  {
  }

  lemma {:induction false} OtherCounts(log: seq<Record>, log': seq<Record>, ptr: Ptr, q: Ptr, p: Port)
    requires Grows(log, log', ptr) && q != ptr
    ensures Received(log', q, p) == Received(log, q, p) && GivenBack(log', q, p) == GivenBack(log, q, p)
    decreases |log'|
  {
    if |log| == |log'| {
      assert log' == log;
    } else {
      var n := |log'| - 1;
      assert log'[..n][..|log|] == log && log' == log'[..n] + [log'[n]];
      OtherCounts(log, log'[..n], ptr, q, p);
      OneMoreRecord(log'[..n], log'[n], q, p);
    }
  }

  /** A change confined to one descriptor and to records about it. */
  lemma ConservedAt(heap: map<Ptr, Info>, log: seq<Record>, ptr: Ptr, i: Info, log': seq<Record>)
    requires AllConserved(heap, log) && Grows(log, log', ptr) && Conserved(i.desc, ptr, log', {})
    ensures AllConserved(heap[ptr := i], log')
  {
    forall q | q in heap && q != ptr ensures Conserved(heap[q].desc, q, log', {}) {
      forall p | p in heap[q].desc.Listeners()
        ensures Received(log', q, p) == Received(log, q, p) && GivenBack(log', q, p) == GivenBack(log, q, p)
      {
        OtherCounts(log, log', ptr, q, p);
      }
      assert Conserved(heap[q].desc, q, log, {});
    }
  }

  // ---- Each operation moves tokens and records together.

  /** A broadcast costs every listener a token; recording it balances that. */
  lemma BroadcastConserved(d: Descriptor, ptr: Ptr, log: seq<Record>, mask: Mask, unposted: set<Port>)
    requires Conserved(d, ptr, log, unposted) && (if d.One? then !d.one.disableTokens else !d.many.disableTokens)
    ensures Conserved(d.NotifyAll(), ptr, log + [Notified(ptr, d.Listeners(), mask)], unposted)
  {
    forall p | p in d.Listeners()
      ensures d.NotifyAll().Knows(p) && d.NotifyAll().Tokens(p) == d.Tokens(p) - 1
    {
    }
    forall p | p in d.NotifyAll().Listeners() ensures p in d.Listeners() {
    }
    forall p | p in d.Listeners()
      ensures Received(log + [Notified(ptr, d.Listeners(), mask)], ptr, p) == Received(log, ptr, p) + 1
      ensures GivenBack(log + [Notified(ptr, d.Listeners(), mask)], ptr, p) == GivenBack(log, ptr, p)
    {
      OneMoreRecord(log, Notified(ptr, d.Listeners(), mask), ptr, p);
    }
  }

  /** Bringing epoll in step costs tokens only when the add is refused, and records that. */
  lemma ReplaceConserved(st: State, ptr: Ptr, i: Info, ok: bool, unposted: set<Port>)
    requires ptr in st.heap && Sane(i) && Conserved(i.desc, ptr, st.log, unposted)
    ensures var st' := Replace(st, ptr, i, ok);
            && ptr in st'.heap && st'.heap == st.heap[ptr := st'.heap[ptr]]
            && Grows(st.log, st'.log, ptr) && Conserved(st'.heap[ptr].desc, ptr, st'.log, unposted)
  {
    BroadcastConserved(i.desc, ptr, st.log, {CloseEvent}, unposted);
    ReplaceEffect(st, ptr, i, ok);
    hide Replace, Conserved, Sane;
  }

  /** Either nothing is posted, or the add is refused and every listener told. */
  lemma ReplaceEffect(st: State, ptr: Ptr, i: Info, ok: bool)
    requires ptr in st.heap
    ensures var st', told := Replace(st, ptr, i, ok), Notified(ptr, i.desc.Listeners(), {CloseEvent});
            (st'.log == st.log && st'.heap == st.heap[ptr := i]) ||
            (st'.log == st.log + [told] && st'.heap == st.heap[ptr := Info(i.fd, i.desc.NotifyAll())])
  {
    assert st.heap[ptr := i][ptr := Info(i.fd, i.desc.NotifyAll())] == st.heap[ptr := Info(i.fd, i.desc.NotifyAll())];
  }

  lemma NextNotifyConserved(i: Info, ptr: Ptr, log: seq<Record>)
    requires Sane(i) && i.desc.CurrentMask() != {} && Conserved(i.desc, ptr, log, {})
    ensures var (desc, port) := i.desc.NextNotify(); Conserved(desc, ptr, log, {port})
  {
    var (desc, port) := i.desc.NextNotify();
    NextNotifySane(i);
    forall p | p in desc.Listeners() ensures p in i.desc.Listeners() && desc.Tokens(p) == i.desc.Tokens(p) - (if p == port then 1 else 0) {
    }
  }

  /** Posting the notification settles it. */
  lemma PostedConserved(d: Descriptor, ptr: Ptr, log: seq<Record>, ports: set<Port>, mask: Mask)
    requires Conserved(d, ptr, log, ports)
    ensures Conserved(d, ptr, log + [Notified(ptr, ports, mask)], {})
  {
    forall p | p in d.Listeners()
      ensures Received(log + [Notified(ptr, ports, mask)], ptr, p) == Received(log, ptr, p) + (if p in ports then 1 else 0)
      ensures GivenBack(log + [Notified(ptr, ports, mask)], ptr, p) == GivenBack(log, ptr, p)
    {
      OneMoreRecord(log, Notified(ptr, ports, mask), ptr, p);
    }
  }

  /** A change of one descriptor that is balanced by at most one record about it. */
  lemma ReplaceConserves(st: State, log: seq<Record>, ptr: Ptr, i: Info, ok: bool)
    requires AllConserved(st.heap, st.log) && ptr in st.heap && Sane(i) && Conserved(i.desc, ptr, log, {})
    requires Grows(st.log, log, ptr)
    ensures var st' := Replace(st.(log := log), ptr, i, ok); AllConserved(st'.heap, st'.log)
  {
    ReplaceConserved(st.(log := log), ptr, i, ok, {});
    var st' := Replace(st.(log := log), ptr, i, ok);
    hide Replace, Conserved, Sane, AllConserved;
    GrowsTrans(st.log, log, st'.log, ptr);
    ConservedAt(st.heap, st.log, ptr, st'.heap[ptr], st'.log);
  }

  /** Handling a readiness event keeps tokens conserved everywhere. */
  lemma ReadyConserves(st: State, e: PollEvent)
    requires Inv(st) && e.Ready? && e.ptr in st.heap && Sane(st.heap[e.ptr]) && st.heap[e.ptr].desc.CurrentMask() != {}
    ensures var st' := HandleReady(st, e); AllConserved(st'.heap, st'.log)
  {
    var i, mask := st.heap[e.ptr], EventMask(e.bits);
    assert Conserved(i.desc, e.ptr, st.log, {});
    hide Consistent, AllConserved, EventMask, Replace;
    if ErrorEvent in mask {
      var log := st.log + [Notified(e.ptr, i.desc.Listeners(), mask)];
      BroadcastConserved(i.desc, e.ptr, st.log, mask, {});
      BroadcastSane(i);
      GrowsByOne(st.log, st.log, Notified(e.ptr, i.desc.Listeners(), mask), e.ptr);
      hide Conserved, Sane;
      ReplaceConserves(st, log, e.ptr, Info(i.fd, i.desc.NotifyAll()), e.addOk);
    } else if mask != {} {
      var (desc, port) := i.desc.NextNotify();
      NextNotifyConserved(i, e.ptr, st.log);
      NextNotifySane(i);
      ReplaceConserved(st, e.ptr, Info(i.fd, desc), e.addOk, {port});
      var st1 := Replace(st, e.ptr, Info(i.fd, desc), e.addOk);
      PostedConserved(st1.heap[e.ptr].desc, e.ptr, st1.log, {port}, mask);
      GrowsByOne(st.log, st1.log, Notified(e.ptr, {port}, mask), e.ptr);
      hide Conserved, Sane;
      ConservedAt(st.heap, st.log, e.ptr, st1.heap[e.ptr], st1.log + [Notified(e.ptr, {port}, mask)]);
    }
  }

  lemma GrowsTrans(log: seq<Record>, mid: seq<Record>, log': seq<Record>, ptr: Ptr)
    requires Grows(log, mid, ptr) && Grows(mid, log', ptr)
    ensures Grows(log, log', ptr)
  {
    assert log'[..|log|] == mid[..|log|] == log;
    assert forall k :: |log| <= k < |mid| ==> log'[k] == log'[..|mid|][k];
  }

  // ---- Commands.

  /** Tokens given back are recorded as given back. */
  lemma ReturnConserved(d: Descriptor, ptr: Ptr, log: seq<Record>, port: Port, count: nat)
    requires Conserved(d, ptr, log, {}) && d.Knows(port) && (if d.One? then !d.one.disableTokens else !d.many.disableTokens)
    ensures Conserved(d.ReturnTokens(port, count), ptr, log + [Returned(ptr, port, count)], {})
  {
    var d' := d.ReturnTokens(port, count);
    forall p | p in d'.Listeners() ensures p in d.Listeners() && d'.Tokens(p) == d.Tokens(p) + (if p == port then count else 0) {
    }
    forall p | p in d.Listeners()
      ensures Received(log + [Returned(ptr, port, count)], ptr, p) == Received(log, ptr, p)
      ensures GivenBack(log + [Returned(ptr, port, count)], ptr, p) == GivenBack(log, ptr, p) + (if p == port then count else 0)
    {
      OneMoreRecord(log, Returned(ptr, port, count), ptr, p);
    }
  }

  /** A port begins with a full quota and nothing received. */
  lemma SetMaskConserved(i: Info, ptr: Ptr, log: seq<Record>, port: Port, mask: Mask)
    requires Sane(i) && Conserved(i.desc, ptr, log, {}) && port != NO_PORT
    requires i.desc.One? ==> i.desc.one.port == NO_PORT || i.desc.one.port == port
    ensures Conserved(i.desc.SetPortAndMask(port, mask), ptr,
                      if i.desc.Knows(port) then log else log + [Added(ptr, port)], {})
  {
    var d, d' := i.desc, i.desc.SetPortAndMask(port, mask);
    forall p | p in d'.Listeners()
      ensures if p == port && !d.Knows(port) then d'.Tokens(p) == d'.Quota() else p in d.Listeners() && d'.Tokens(p) == d.Tokens(p)
    {
    }
    forall p | p in d'.Listeners()
      ensures Received(log + [Added(ptr, port)], ptr, p) == if p == port then 0 else Received(log, ptr, p)
      ensures GivenBack(log + [Added(ptr, port)], ptr, p) == if p == port then 0 else GivenBack(log, ptr, p)
    {
      OneMoreRecord(log, Added(ptr, port), ptr, p);
    }
  }

  /** Taking a port away leaves the other ports of a shared descriptor as they were. */
  lemma ClosePortConserved(i: Info, ptr: Ptr, log: seq<Record>, port: Port)
    requires Conserved(i.desc, ptr, log, {}) && i.desc.Many?
    ensures Conserved(ClosePort(i, port).desc, ptr, log, {})
  {
  }

  /** What the tables and the counts say at the descriptor a command meets: no more tokens
      are returned than the quota has room for. */
  lemma ReturnFits(st: State, ptr: Ptr, port: Port, count: nat)
    requires AllConserved(st.heap, st.log) && ptr in st.heap && st.heap[ptr].desc.Knows(port) && port != NO_PORT
    requires GivenBack(st.log, ptr, port) + count <= Received(st.log, ptr, port)
    ensures st.heap[ptr].desc.Tokens(port) + count <= st.heap[ptr].desc.Quota()
  {
    assert Conserved(st.heap[ptr].desc, ptr, st.log, {});
    assert port in st.heap[ptr].desc.Listeners();
  }

  lemma ReturnConserves(st: State, ptr: Ptr, msg: Message)
    requires Meets(st, ptr, msg) && AllConserved(st.heap, st.log) && msg.command.ReturnToken?
    ensures var st' := HandleCommand(st, ptr, msg); AllConserved(st'.heap, st'.log)
  {
    var i, port, count := st.heap[ptr], msg.port, msg.command.count;
    assert Sane(i) && Conserved(i.desc, ptr, st.log, {});
    hide Consistent, AllConserved, Replace;
    ReturnConserved(i.desc, ptr, st.log, port, count);
    ReturnSane(i, port, count);
    GrowsByOne(st.log, st.log, Returned(ptr, port, count), ptr);
    hide Sane, Conserved;
    ReplaceConserves(st, st.log + [Returned(ptr, port, count)], ptr, Info(i.fd, i.desc.ReturnTokens(port, count)), msg.addOk);
  }

  lemma AddedGrows(log: seq<Record>, ptr: Ptr, port: Port)
    ensures Grows(log, log, ptr) && Grows(log, log + [Added(ptr, port)], ptr)
  {
  }

  /** What setting a mask comes to. */
  lemma SetMaskEffect(st: State, ptr: Ptr, msg: Message)
    requires Meets(st, ptr, msg) && AllConserved(st.heap, st.log) && msg.command.SetEventMask?
    ensures var i := st.heap[ptr];
            var log := if i.desc.Knows(msg.port) then st.log else st.log + [Added(ptr, msg.port)];
            && HandleCommand(st, ptr, msg)
               == Replace(st.(log := log), ptr, Info(i.fd, i.desc.SetPortAndMask(msg.port, msg.command.mask)), msg.addOk)
            && msg.port != NO_PORT && Conserved(i.desc, ptr, st.log, {})
  {
    hide Replace, Consistent, Conserved;
  }

  lemma SetMaskConserves(st: State, ptr: Ptr, msg: Message)
    requires Meets(st, ptr, msg) && AllConserved(st.heap, st.log) && msg.command.SetEventMask?
    ensures var st' := HandleCommand(st, ptr, msg); AllConserved(st'.heap, st'.log)
  {
    hide Consistent;
    var i, port, mask := st.heap[ptr], msg.port, msg.command.mask;
    hide *;
    MeetsFacts(st, ptr, msg);
    var log := if i.desc.Knows(port) then st.log else st.log + [Added(ptr, port)];
    SetMaskEffect(st, ptr, msg);
    OwnPort(st, ptr, msg);
    SetMaskConserved(i, ptr, st.log, port, mask);
    SetMaskSane(i, port, mask);
    AddedGrows(st.log, ptr, port);
    ReplaceConserves(st, log, ptr, Info(i.fd, i.desc.SetPortAndMask(port, mask)), msg.addOk);
  }

  /** Closing the last socket takes the descriptor away. */
  lemma LastCloseConserves(st: State, ptr: Ptr, msg: Message)
    requires Meets(st, ptr, msg) && AllConserved(st.heap, st.log) && msg.command.Close?
    requires st.heap[ptr].desc.One? || LastCloser(st.sockets, msg.id)
    ensures var st' := HandleCommand(st, ptr, msg); AllConserved(st'.heap, st'.log)
  {
    var i := st.heap[ptr];
    NothingAskedAtFree(st, ptr, msg);
    CloseEffect(st, ptr, msg);
    hide Consistent, Meets, HandleCommand, AllConserved, ClosePort;
    SilentReplace(st, ptr, ClosePort(i, msg.port), msg.addOk);
    hide Replace;
    GrowsByOne(st.log, st.log, Told(msg.port, {DestroyedEvent}), ptr);
    ConservedElsewhere(st.heap, st.log, ptr, st.log + [Told(msg.port, {DestroyedEvent})]);
  }

  /** A descriptor that asks for nothing is never added, so nothing is posted. */
  lemma SilentReplace(st: State, ptr: Ptr, i: Info, ok: bool)
    requires ptr in st.heap && i.desc.CurrentMask() == {}
    ensures var st' := Replace(st, ptr, i, ok); st'.log == st.log && st'.heap - {ptr} == st.heap - {ptr}
  {
  }

  /** Closing an earlier one leaves the other listeners with what they had. */
  lemma EarlierCloseConserves(st: State, ptr: Ptr, msg: Message)
    requires Meets(st, ptr, msg) && AllConserved(st.heap, st.log) && msg.command.Close?
    requires st.heap[ptr].desc.Many? && !LastCloser(st.sockets, msg.id)
    ensures var st' := HandleCommand(st, ptr, msg); AllConserved(st'.heap, st'.log)
  {
    var i, r := st.heap[ptr], Told(msg.port, {DestroyedEvent});
    var st1 := Replace(st, ptr, ClosePort(i, msg.port), msg.addOk);
    CloseEffect(st, ptr, msg);
    assert Sane(i) && Conserved(i.desc, ptr, st.log, {});
    hide Consistent, AllConserved, HandleCommand, Replace, Conserved;
    ClosePortSane(i, msg.port);
    ClosePortConserved(i, ptr, st.log, msg.port);
    hide Sane, ClosePort;
    ReplaceConserved(st, ptr, ClosePort(i, msg.port), msg.addOk, {});
    ToldConserved(st1.heap[ptr].desc, ptr, st1.log, r);
    GrowsByOne(st.log, st1.log, r, ptr);
    ConservedAt(st.heap, st.log, ptr, st1.heap[ptr], st1.log + [r]);
  }

  lemma ToldConserved(d: Descriptor, ptr: Ptr, log: seq<Record>, r: Record)
    requires Conserved(d, ptr, log, {}) && r.Told?
    ensures Conserved(d, ptr, log + [r], {})
  {
    forall p | p in d.Listeners()
      ensures Received(log + [r], ptr, p) == Received(log, ptr, p) && GivenBack(log + [r], ptr, p) == GivenBack(log, ptr, p)
    {
      OneMoreRecord(log, r, ptr, p);
    }
  }

  lemma ConservedElsewhere(heap: map<Ptr, Info>, log: seq<Record>, ptr: Ptr, log': seq<Record>)
    requires AllConserved(heap, log) && Grows(log, log', ptr)
    ensures AllConserved(heap - {ptr}, log')
  {
    forall q | q in heap - {ptr} ensures Conserved(heap[q].desc, q, log', {}) {
      forall p | p in heap[q].desc.Listeners()
        ensures Received(log', q, p) == Received(log, q, p) && GivenBack(log', q, p) == GivenBack(log, q, p)
      {
        OtherCounts(log, log', ptr, q, p);
      }
      assert Conserved(heap[q].desc, q, log, {});
    }
  }

  lemma CommandConserves(st: State, ptr: Ptr, msg: Message)
    requires Meets(st, ptr, msg) && AllConserved(st.heap, st.log)
    ensures var st' := HandleCommand(st, ptr, msg); AllConserved(st'.heap, st'.log)
  {
    hide Consistent, AllConserved;
    match msg.command
    case ShutdownRead =>
    case ShutdownWrite =>
    case Close =>
      if st.heap[ptr].desc.One? || LastCloser(st.sockets, msg.id) {
        LastCloseConserves(st, ptr, msg);
      } else {
        EarlierCloseConserves(st, ptr, msg);
      }
    case ReturnToken(count) => ReturnConserves(st, ptr, msg);
    case SetEventMask(mask) => SetMaskConserves(st, ptr, msg);
  }
}
