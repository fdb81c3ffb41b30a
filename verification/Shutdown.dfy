/** Reference counts of socket messages and the shutdown handshake of
    runtime/bin/eventhandler.cc, over every interleaving of senders, finalizers, the event
    handler thread and the thread that stops it. */
module Shutdown {

  type SocketId = nat

  datatype Message = SocketMessage(id: SocketId) | TimerMessage | ShutdownMessage

  /** Where the stopping thread is. */
  datatype Stopper =
    | Running      // Stop not called yet
    | Locked       // holds the monitor
    | Sent         // holds the monitor, shutdown message sent
    | Waiting      // waits on the monitor, which it has released
    | Woken        // notified, has to take the monitor again
    | Holding      // holds the monitor again
    | Leaving      // has released the monitor for good
    | Deleted      // has deleted the handler and the monitor

  /** Where the event handler thread is. */
  datatype Looper =
    | Polling      // in the loop
    | Exited       // out of the loop, about to take the monitor
    | Notifying    // holds the monitor
    | Notified     // holds the monitor, has notified
    | Done         // has released the monitor

  datatype Owner = Nobody | TheStopper | TheLooper

  /** `refs` counts the references to each socket, and `closed` are those without an fd. The
      other fields say who holds references:
      `owned` the Dart objects, `sending` callers between retaining a socket and writing its
      message, `finalizing` finalizers before and `finalized` after writing their message,
      and `pipe` and `batch` the messages not yet and just read. */
  datatype State = State(
    refs: map<SocketId, nat>,
    closed: set<SocketId>,
    owned: set<SocketId>,
    sending: multiset<SocketId>,
    finalizing: multiset<SocketId>,
    finalized: multiset<SocketId>,
    pipe: seq<Message>,
    batch: seq<Message>,
    shutdown: bool,
    monitor: Owner,
    stopper: Stopper,
    looper: Looper)

  function Initial(): State {
    State(map[], {}, {}, multiset{}, multiset{}, multiset{}, [], [], false, Nobody, Running, Polling)
  }

  /** What senders and finalizers do. */
  datatype SenderStep =
    | Create(id: SocketId)
    | Retain(id: SocketId)
    | Write(id: SocketId)
    | WriteTimer
    | FinalizeRetain(id: SocketId)
    | FinalizeWrite(id: SocketId)
    | FinalizeRelease(id: SocketId)

  /** What the event handler thread does. */
  datatype LooperStep = Read(count: nat) | Handle(closes: bool) | Exit | LooperLock | Notify | LooperUnlock

  /** What the stopping thread does. */
  datatype StopperStep = StopperLock | SendShutdown | Wait | Relock | StopperUnlock | Delete

  datatype Step = BySender(sender: SenderStep) | ByLooper(looper: LooperStep) | ByStopper(stopper: StopperStep)

  /** Messages are sent only while nobody has called Stop, as the source demands. */
  predicate SenderEnabled(st: State, step: SenderStep) {
    match step
    case Create(id) => id !in st.refs && st.stopper.Running?
    case Retain(id) => id in st.owned && st.stopper.Running?
    case Write(id) => id in st.sending && st.stopper.Running?
    case WriteTimer => st.stopper.Running?
    case FinalizeRetain(id) => id in st.owned && st.stopper.Running?
    case FinalizeWrite(id) => id in st.finalizing && st.stopper.Running?
    case FinalizeRelease(id) => id in st.finalized
  }

  predicate LooperEnabled(st: State, step: LooperStep) {
    match step
    case Read(count) => st.looper.Polling? && !st.shutdown && st.batch == [] && 0 < count <= |st.pipe|
    case Handle(_) => st.looper.Polling? && st.batch != []
    case Exit => st.looper.Polling? && st.shutdown && st.batch == []
    case LooperLock => st.looper.Exited? && st.monitor.Nobody?
    case Notify => st.looper.Notifying?
    case LooperUnlock => st.looper.Notified?
  }

  predicate StopperEnabled(st: State, step: StopperStep) {
    match step
    case StopperLock => st.stopper.Running? && st.monitor.Nobody? && st.sending == st.finalizing == multiset{}
    case SendShutdown => st.stopper.Locked?
    case Wait => st.stopper.Sent?
    case Relock => st.stopper.Woken? && st.monitor.Nobody?
    case StopperUnlock => st.stopper.Holding?
    case Delete => st.stopper.Leaving?
  }

  predicate Enabled(st: State, step: Step) {
    match step
    case BySender(s) => SenderEnabled(st, s)
    case ByLooper(l) => LooperEnabled(st, l)
    case ByStopper(t) => StopperEnabled(st, t)
  }

  function Refs(st: State, id: SocketId): nat {
    if id in st.refs then st.refs[id] else 0
  }

  /** Every release needs something to release; AllHeld shows there always is. */
  function Release(st: State, id: SocketId): State {
    if Refs(st, id) == 0 then st else st.(refs := st.refs[id := st.refs[id] - 1])
  }

  function SenderNext(st: State, step: SenderStep): State {
    match step
    case Create(id) => st.(refs := st.refs[id := 1], owned := st.owned + {id})
    case Retain(id) => st.(refs := st.refs[id := Refs(st, id) + 1], sending := st.sending + multiset{id})
    case Write(id) => st.(sending := st.sending - multiset{id}, pipe := st.pipe + [SocketMessage(id)])
    case WriteTimer => st.(pipe := st.pipe + [TimerMessage])
    case FinalizeRetain(id) =>
      st.(refs := st.refs[id := Refs(st, id) + 1], owned := st.owned - {id}, finalizing := st.finalizing + multiset{id})
    case FinalizeWrite(id) =>
      st.(finalizing := st.finalizing - multiset{id}, finalized := st.finalized + multiset{id},
          pipe := st.pipe + [SocketMessage(id)])
    case FinalizeRelease(id) => Release(st, id).(finalized := st.finalized - multiset{id})
  }

  function LooperNext(st: State, step: LooperStep): State
    requires LooperEnabled(st, step)
  {
    match step
    case Read(count) => st.(batch := st.pipe[..count], pipe := st.pipe[count..])
    case Handle(closes) =>
      (match st.batch[0]
       case SocketMessage(id) =>
         if id in st.closed then Release(st, id).(batch := st.batch[1..])
         else Release(st, id).(batch := st.batch[1..], closed := if closes then st.closed + {id} else st.closed)
       case TimerMessage => st.(batch := st.batch[1..])
       case ShutdownMessage => st.(shutdown := true, batch := st.batch[1..]))
    case Exit => st.(looper := Exited)
    case LooperLock => st.(looper := Notifying, monitor := TheLooper)
    case Notify => st.(looper := Notified, stopper := if st.stopper.Waiting? then Woken else st.stopper)
    case LooperUnlock => st.(looper := Done, monitor := Nobody)
  }

  function StopperNext(st: State, step: StopperStep): State {
    match step
    case StopperLock => st.(stopper := Locked, monitor := TheStopper)
    case SendShutdown => st.(stopper := Sent, pipe := st.pipe + [ShutdownMessage])
    case Wait => st.(stopper := Waiting, monitor := Nobody)
    case Relock => st.(stopper := Holding, monitor := TheStopper)
    case StopperUnlock => st.(stopper := Leaving, monitor := Nobody)
    case Delete => st.(stopper := Deleted)
  }

  function Next(st: State, step: Step): State
    requires Enabled(st, step)
  {
    match step
    case BySender(s) => SenderNext(st, s)
    case ByLooper(l) => LooperNext(st, l)
    case ByStopper(t) => StopperNext(st, t)
  }

  // ---- The invariant.

  /** How many of the messages are about a socket. */
  ghost function Count(messages: seq<Message>, id: SocketId): nat {
    multiset(messages)[SocketMessage(id)]
  }

  /** The references to a socket that somebody holds: one per owner, sender and message,
      two per finalizer until it has handed one to its message. */
  ghost function Held(st: State, id: SocketId): nat {
    (if id in st.owned then 1 else 0) + st.sending[id] + 2 * st.finalizing[id] + st.finalized[id]
    + Count(st.pipe, id) + Count(st.batch, id)
  }

  ghost predicate RefsOk(st: State) {
    forall id :: Refs(st, id) == Held(st, id)
  }

  /** The shutdown message is the last one ever sent, and comes once. */
  ghost predicate PipeOk(st: State) {
    var all := st.batch + st.pipe;
    if st.stopper.Running? || st.stopper.Locked? then
      !st.shutdown && ShutdownMessage !in all
    else
      if st.shutdown then all == []
      else all != [] && all[|all| - 1] == ShutdownMessage && ShutdownMessage !in all[..|all| - 1]
  }

  ghost predicate HandshakeOk(st: State) {
    && (st.monitor.TheStopper? <==> st.stopper.Locked? || st.stopper.Sent? || st.stopper.Holding?)
    && (st.monitor.TheLooper? <==> st.looper.Notifying? || st.looper.Notified?)
    && (!st.looper.Polling? ==> st.shutdown)
    && (st.looper.Notifying? ==> st.stopper.Waiting?)
    && (st.looper.Exited? ==> st.stopper.Sent? || st.stopper.Waiting?)
    && (st.looper.Notified? ==> st.stopper.Woken?)
    && (st.looper.Polling? ==> st.stopper.Running? || st.stopper.Locked? || st.stopper.Sent? || st.stopper.Waiting?)
    && (st.looper.Done? ==> st.stopper.Woken? || st.stopper.Holding? || st.stopper.Leaving? || st.stopper.Deleted?)
    && (!st.stopper.Running? ==> st.sending == multiset{} && st.finalizing == multiset{})
  }

  ghost predicate Inv(st: State) {
    RefsOk(st) && PipeOk(st) && HandshakeOk(st)
  }

  /** Whoever holds a reference to a socket finds it alive. */
  lemma AllHeld(st: State, id: SocketId)
    requires RefsOk(st)
    ensures id in st.owned || id in st.sending || id in st.finalizing || id in st.finalized ==> Refs(st, id) > 0
    ensures SocketMessage(id) in st.pipe || SocketMessage(id) in st.batch ==> Refs(st, id) > 0
  {
    assert Refs(st, id) == Held(st, id);
    assert SocketMessage(id) in st.pipe ==> SocketMessage(id) in multiset(st.pipe);
    assert SocketMessage(id) in st.batch ==> SocketMessage(id) in multiset(st.batch);
  }

  // ---- Every step keeps it.

  lemma CountAppend(messages: seq<Message>, m: Message, id: SocketId)
    ensures Count(messages + [m], id) == Count(messages, id) + (if m == SocketMessage(id) then 1 else 0)
  {
  }

  lemma CountSplit(messages: seq<Message>, k: nat, id: SocketId)
    requires k <= |messages|
    ensures Count(messages[..k], id) + Count(messages[k..], id) == Count(messages, id)
  {
    assert messages == messages[..k] + messages[k..];
  }

  lemma WriterRefs(st: State, step: SenderStep, id: SocketId)
    requires Refs(st, id) == Held(st, id) && SenderEnabled(st, step) && (step.Write? || step.WriteTimer? || step.FinalizeWrite?)
    ensures Refs(SenderNext(st, step), id) == Held(SenderNext(st, step), id)
  {
    hide Count;
    match step
    case Write(x) => CountAppend(st.pipe, SocketMessage(x), id);
    case WriteTimer => CountAppend(st.pipe, TimerMessage, id);
    case FinalizeWrite(x) => CountAppend(st.pipe, SocketMessage(x), id);
  }

  lemma SenderRefs(st: State, step: SenderStep, id: SocketId)
    requires Refs(st, id) == Held(st, id) && SenderEnabled(st, step)
    ensures Refs(SenderNext(st, step), id) == Held(SenderNext(st, step), id)
  {
    hide Count;
    if step.Write? || step.WriteTimer? || step.FinalizeWrite? {
      hide SenderNext, Held;
      WriterRefs(st, step, id);
    } else {
      match step
      case Create(x) =>
      case Retain(x) =>
      case FinalizeRetain(x) =>
      case FinalizeRelease(x) =>
    }
  }

  lemma CountFirst(messages: seq<Message>, id: SocketId)
    requires messages != []
    ensures Count(messages, id) == Count(messages[1..], id) + if messages[0] == SocketMessage(id) then 1 else 0
  {
    CountSplit(messages, 1, id);
    assert messages[..1] == [messages[0]];
  }

  /** All that handling the first message of a batch changes. */
  lemma HandleEffect(st: State, closes: bool)
    requires LooperEnabled(st, Handle(closes))
    ensures var first, st' := st.batch[0], LooperNext(st, Handle(closes));
            && st' == st.(refs := st'.refs, closed := st'.closed, shutdown := st'.shutdown, batch := st.batch[1..])
            && st'.refs == (if first.SocketMessage? then Release(st, first.id).refs else st.refs)
            && st'.shutdown == (st.shutdown || first.ShutdownMessage?)
  {
  }

  lemma HandleRefs(st: State, closes: bool, id: SocketId)
    requires Refs(st, id) == Held(st, id) && LooperEnabled(st, Handle(closes))
    ensures Refs(LooperNext(st, Handle(closes)), id) == Held(LooperNext(st, Handle(closes)), id)
  {
    var first, st' := st.batch[0], LooperNext(st, Handle(closes));
    CountFirst(st.batch, id);
    HandleEffect(st, closes);
    hide Count, LooperNext;
    assert Held(st', id) == Held(st, id) - (if first == SocketMessage(id) then 1 else 0);
    hide Held;
  }

  lemma LooperRefs(st: State, step: LooperStep, id: SocketId)
    requires Refs(st, id) == Held(st, id) && LooperEnabled(st, step)
    ensures Refs(LooperNext(st, step), id) == Held(LooperNext(st, step), id)
  {
    if step.Handle? {
      HandleRefs(st, step.closes, id);
    } else if step.Read? {
      assert Count(st.batch, id) == 0;
      CountSplit(st.pipe, step.count, id);
    }
  }

  lemma StopperRefs(st: State, step: StopperStep, id: SocketId)
    requires Refs(st, id) == Held(st, id) && StopperEnabled(st, step)
    ensures Refs(StopperNext(st, step), id) == Held(StopperNext(st, step), id)
  {
    CountAppend(st.pipe, ShutdownMessage, id);
  }

  lemma StepKeepsRefs(st: State, step: Step)
    requires RefsOk(st) && Enabled(st, step)
    ensures RefsOk(Next(st, step))
  {
    hide Held, Refs;
    forall id ensures Refs(Next(st, step), id) == Held(Next(st, step), id) {
      assert Refs(st, id) == Held(st, id);
      match step
      case BySender(s) => SenderRefs(st, s, id);
      case ByLooper(l) => LooperRefs(st, l, id);
      case ByStopper(t) => StopperRefs(st, t, id);
    }
  }

  lemma LastStays(all: seq<Message>)
    requires |all| > 1 && all[|all| - 1] == ShutdownMessage && ShutdownMessage !in all[..|all| - 1]
    ensures !all[0].ShutdownMessage?
    ensures var rest := all[1..]; rest[|rest| - 1] == ShutdownMessage && ShutdownMessage !in rest[..|rest| - 1]
  {
    assert all[0] in all[..|all| - 1];
    assert all[1..][..|all| - 2] == all[..|all| - 1][1..];
  }

  lemma HandleKeepsPipe(st: State, closes: bool)
    requires PipeOk(st) && LooperEnabled(st, Handle(closes))
    ensures PipeOk(LooperNext(st, Handle(closes)))
  {
    var all := st.batch + st.pipe;
    HandleEffect(st, closes);
    hide LooperNext;
    assert st.batch[1..] + st.pipe == all[1..] && all[0] == st.batch[0];
    if |all| > 1 && !st.stopper.Running? && !st.stopper.Locked? {
      LastStays(all);
    }
  }

  lemma WriteKeepsPipe(st: State, st': State, m: Message)
    requires PipeOk(st) && st.stopper.Running? && st'.stopper.Running? && st'.shutdown == st.shutdown
    requires st'.batch == st.batch && st'.pipe == st.pipe + [m] && m != ShutdownMessage
    ensures PipeOk(st')
  {
    assert st'.batch + st'.pipe == st.batch + st.pipe + [m];
  }

  lemma SenderKeepsPipe(st: State, step: SenderStep)
    requires PipeOk(st) && SenderEnabled(st, step)
    ensures PipeOk(SenderNext(st, step))
  {
    var st' := SenderNext(st, step);
    if step.Write? || step.FinalizeWrite? || step.WriteTimer? {
      var m := if step.WriteTimer? then TimerMessage else SocketMessage(step.id);
      hide PipeOk;
      WriteKeepsPipe(st, st', m);
    } else {
      assert st'.pipe == st.pipe && st'.batch == st.batch && st'.stopper == st.stopper && st'.shutdown == st.shutdown;
    }
  }

  lemma StopperKeepsPipe(st: State, step: StopperStep)
    requires PipeOk(st) && StopperEnabled(st, step)
    ensures PipeOk(StopperNext(st, step))
  {
    var sent := st.batch + st.pipe + [ShutdownMessage];
    assert st.batch + (st.pipe + [ShutdownMessage]) == sent && sent[..|sent| - 1] == st.batch + st.pipe;
  }

  lemma LooperKeepsPipe(st: State, step: LooperStep)
    requires PipeOk(st) && HandshakeOk(st) && LooperEnabled(st, step)
    ensures PipeOk(LooperNext(st, step))
  {
    if step.Handle? {
      HandleKeepsPipe(st, step.closes);
    } else if step.Read? {
      assert st.pipe[..step.count] + st.pipe[step.count..] == st.batch + st.pipe;
    }
  }

  lemma StepKeepsPipe(st: State, step: Step)
    requires PipeOk(st) && HandshakeOk(st) && Enabled(st, step)
    ensures PipeOk(Next(st, step))
  {
    hide PipeOk, HandshakeOk;
    match step
    case BySender(s) => SenderKeepsPipe(st, s);
    case ByLooper(l) => LooperKeepsPipe(st, l);
    case ByStopper(t) => StopperKeepsPipe(st, t);
  }

  lemma SenderKeepsHandshake(st: State, step: SenderStep)
    requires HandshakeOk(st) && SenderEnabled(st, step)
    ensures HandshakeOk(SenderNext(st, step))
  {
  }

  lemma LooperKeepsHandshake(st: State, step: LooperStep)
    requires PipeOk(st) && HandshakeOk(st) && LooperEnabled(st, step)
    ensures HandshakeOk(LooperNext(st, step))
  {
  }

  lemma StopperKeepsHandshake(st: State, step: StopperStep)
    requires HandshakeOk(st) && StopperEnabled(st, step)
    ensures HandshakeOk(StopperNext(st, step))
  {
  }

  lemma StepKeepsHandshake(st: State, step: Step)
    requires PipeOk(st) && HandshakeOk(st) && Enabled(st, step)
    ensures HandshakeOk(Next(st, step))
  {
    hide PipeOk, HandshakeOk;
    match step
    case BySender(s) => SenderKeepsHandshake(st, s);
    case ByLooper(l) => LooperKeepsHandshake(st, l);
    case ByStopper(t) => StopperKeepsHandshake(st, t);
  }

  lemma StepKeepsInv(st: State, step: Step)
    requires Inv(st) && Enabled(st, step)
    ensures Inv(Next(st, step))
  {
    hide RefsOk, PipeOk, HandshakeOk, Next;
    StepKeepsRefs(st, step);
    StepKeepsPipe(st, step);
    StepKeepsHandshake(st, step);
  }

  // ---- Runs.

  ghost predicate RunOk(st: State, steps: seq<Step>)
    decreases |steps|
  {
    steps == [] || (Enabled(st, steps[0]) && RunOk(Next(st, steps[0]), steps[1..]))
  }

  ghost function Run(st: State, steps: seq<Step>): State
    requires RunOk(st, steps)
    decreases |steps|
  {
    if steps == [] then st else Run(Next(st, steps[0]), steps[1..])
  }

  lemma {:induction false} RunKeepsInv(st: State, steps: seq<Step>)
    requires Inv(st) && RunOk(st, steps)
    ensures Inv(Run(st, steps))
    decreases |steps|
  {
    hide Inv, Enabled, Next;
    if steps != [] {
      StepKeepsInv(st, steps[0]);
      RunKeepsInv(Next(st, steps[0]), steps[1..]);
    }
  }

  lemma InitialInv()
    ensures Inv(Initial())
  {
  }

  /** The steps can be taken, one after the other, from the start. */
  ghost predicate Possible(steps: seq<Step>) {
    RunOk(Initial(), steps)
  }

  /** The state they lead to. */
  ghost function Reached(steps: seq<Step>): (st: State)
    requires Possible(steps)
    ensures Inv(st)
  {
    InitialInv();
    RunKeepsInv(Initial(), steps);
    Run(Initial(), steps)
  }

  /** In every interleaving, every message on its way to the handler holds a reference of
      its own: its socket's count is the number of messages about it plus what its owner,
      senders and finalizers hold. */
  lemma MessagesHoldReferences(steps: seq<Step>, id: SocketId)
    requires Possible(steps)
    ensures var st := Reached(steps);
            SocketMessage(id) in st.pipe + st.batch ==>
              Refs(st, id) == Held(st, id) >= Count(st.pipe, id) + Count(st.batch, id) > 0
  {
    var st := Reached(steps);
    assert Refs(st, id) == Held(st, id);
    if SocketMessage(id) in st.pipe {
      assert SocketMessage(id) in multiset(st.pipe);
    } else if SocketMessage(id) in st.batch {
      assert SocketMessage(id) in multiset(st.batch);
    }
  }

  /** Handling a message takes exactly its one reference away, also when the socket has lost
      its fd meanwhile and nothing else is done. */
  lemma HandlingReleasesOnce(st: State, id: SocketId, closes: bool)
    requires Inv(st) && LooperEnabled(st, Handle(closes)) && st.batch[0] == SocketMessage(id)
    ensures var st' := LooperNext(st, Handle(closes));
            && (id in st.closed ==> st' == st.(refs := st'.refs, batch := st.batch[1..]))
            && Refs(st, id) > 0 && Refs(st', id) == Refs(st, id) - 1
            && Count(st'.batch, id) == Count(st.batch, id) - 1
            && forall other :: other != id ==> Refs(st', other) == Refs(st, other)
  {
    AllHeld(st, id);
    CountSplit(st.batch, 1, id);
    assert st.batch[..1] == [st.batch[0]];
  }

  /** A release never finds a count of zero. */
  lemma ReleasesAreCovered(st: State, step: Step)
    requires Inv(st) && Enabled(st, step)
    ensures step.BySender? && step.sender.FinalizeRelease? ==> Refs(st, step.sender.id) > 0
    ensures step.ByLooper? && step.looper.Handle? && st.batch[0].SocketMessage? ==> Refs(st, st.batch[0].id) > 0
  {
    if step.BySender? && step.sender.FinalizeRelease? {
      AllHeld(st, step.sender.id);
    }
    if step.ByLooper? && step.looper.Handle? && st.batch[0].SocketMessage? {
      AllHeld(st, st.batch[0].id);
    }
  }

  /** A socket none of whose references is left is named by no message, owner, sender or
      finalizer: it can be deleted. */
  lemma FreedIsUnreachable(st: State, id: SocketId)
    requires Inv(st) && Refs(st, id) == 0
    ensures id !in st.owned && id !in st.sending && id !in st.finalizing && id !in st.finalized
    ensures SocketMessage(id) !in st.pipe && SocketMessage(id) !in st.batch
  {
    AllHeld(st, id);
  }

  /** The notification is never lost: whenever the handler thread notifies, the stopping
      thread is waiting. */
  lemma NotificationFindsWaiter(steps: seq<Step>)
    requires Possible(steps) && LooperEnabled(Reached(steps), Notify)
    ensures Reached(steps).stopper.Waiting?
    ensures LooperNext(Reached(steps), Notify).stopper.Woken?
  {
  }

  /** The handler and the monitor are deleted only after the handler thread has left its
      loop, has notified and has released the monitor, with every message handled. */
  lemma DeletedOnlyAfterExit(steps: seq<Step>)
    requires Possible(steps)
    requires Reached(steps).stopper.Leaving? || Reached(steps).stopper.Deleted?
    ensures var st := Reached(steps);
            st.looper.Done? && st.monitor.Nobody? && st.shutdown && st.pipe == [] && st.batch == []
  {
    var st := Reached(steps);
    assert st.batch + st.pipe == [];
  }

  /** The steps the handler thread still takes before it notifies a waiting stopper. */
  ghost function StepsToNotify(st: State): nat {
    match st.looper
    case Polling => 3 + |st.batch| + 2 * |st.pipe|
    case Exited => 2
    case Notifying => 1
    case _ => 0
  }

  /** The next of them. */
  function NextLooperStep(st: State): LooperStep {
    match st.looper
    case Polling => if st.batch != [] then Handle(false) else if st.shutdown then Exit else Read(|st.pipe|)
    case Exited => LooperLock
    case _ => Notify
  }

  /** While the stopper waits, the handler thread is never stuck. */
  lemma LooperNeverStuck(st: State)
    requires Inv(st) && st.stopper.Waiting?
    ensures LooperEnabled(st, NextLooperStep(st))
  {
    hide RefsOk;
    assert st.looper.Polling? && st.batch == [] ==> st.batch + st.pipe == st.pipe;
  }

  /** And whatever it does brings it nearer to its notification. */
  lemma LooperProgress(st: State, step: LooperStep)
    requires Inv(st) && st.stopper.Waiting? && LooperEnabled(st, step)
    ensures if step.Notify? then LooperNext(st, step).stopper.Woken?
            else LooperNext(st, step).stopper.Waiting? && StepsToNotify(LooperNext(st, step)) < StepsToNotify(st)
  {
    hide RefsOk, PipeOk;
  }

  /** The stopper has been woken, and may have gone on. */
  predicate PastWait(st: State) {
    st.stopper.Woken? || st.stopper.Holding? || st.stopper.Leaving? || st.stopper.Deleted?
  }

  /** How many of the steps are the handler thread's. */
  function LooperSteps(steps: seq<Step>): nat {
    if steps == [] then 0 else (if steps[0].ByLooper? then 1 else 0) + LooperSteps(steps[1..])
  }

  /** What other threads do while the stopper waits leaves that as it is, and nothing takes
      a stopper that was woken back. */
  lemma OthersDoNotDelay(st: State, step: Step)
    requires Inv(st) && Enabled(st, step)
    ensures st.stopper.Waiting? && !step.ByLooper? ==>
              Next(st, step).stopper.Waiting? && StepsToNotify(Next(st, step)) == StepsToNotify(st)
    ensures PastWait(st) ==> PastWait(Next(st, step))
  {
    hide RefsOk, PipeOk;
  }

  /** So in every interleaving the stopper has been woken by the time the handler thread has
      taken that many steps, whichever they are. */
  lemma {:induction false} WaitingEndsInTime(st: State, steps: seq<Step>)
    requires Inv(st) && RunOk(st, steps)
    requires PastWait(st) || (st.stopper.Waiting? && LooperSteps(steps) >= StepsToNotify(st))
    ensures PastWait(Run(st, steps))
    decreases |steps|
  {
    if steps == [] {
      assert st.stopper.Waiting? ==> st.looper.Polling? || st.looper.Exited? || st.looper.Notifying? by {
        hide RefsOk, PipeOk;
      }
    } else {
      OthersDoNotDelay(st, steps[0]);
      if st.stopper.Waiting? && steps[0].ByLooper? {
        LooperProgress(st, steps[0].looper);
      }
      StepKeepsInv(st, steps[0]);
      hide Inv, LooperNext, SenderNext, StopperNext, LooperEnabled, SenderEnabled, StopperEnabled, StepsToNotify;
      WaitingEndsInTime(Next(st, steps[0]), steps[1..]);
    }
  }

  /** A waiting stopper is always woken: the handler thread, left to itself, can reach its
      notification. */
  lemma {:induction false} WaitingEnds(st: State) returns (steps: seq<Step>)
    requires Inv(st) && st.stopper.Waiting?
    ensures RunOk(st, steps) && Run(st, steps).stopper.Woken?
    decreases StepsToNotify(st)
  {
    var step := ByLooper(NextLooperStep(st));
    LooperNeverStuck(st);
    LooperProgress(st, NextLooperStep(st));
    StepKeepsInv(st, step);
    assert st.looper.Notifying? <==> NextLooperStep(st).Notify? by {
      hide RefsOk, PipeOk;
    }
    hide Inv, Next, Enabled, StepsToNotify, NextLooperStep;
    var rest := [];
    if !st.looper.Notifying? {
      rest := WaitingEnds(Next(st, step));
    }
    RunFirst(st, step, rest);
    steps := [step] + rest;
  }

  // ---- Spurious wakeups.

  /** The wait may return without a notification; the source does not check for that. */
  function SpuriousWakeup(st: State): State {
    if st.stopper.Waiting? then st.(stopper := Woken) else st
  }

  /** The handler can be deleted while its thread still has to use it. */
  ghost predicate CanDeleteTooEarly(st: State) {
    exists steps :: RunOk(st, steps) && Run(st, steps).stopper.Deleted? && !Run(st, steps).looper.Done?
  }

  /** The handler thread is in its critical section or past it, which keeps a stopper that was
      woken out of its own. */
  predicate Shielded(st: State) {
    && (st.looper.Notifying? || st.looper.Notified? || st.looper.Done?)
    && (!st.looper.Done? ==> st.monitor.TheLooper? && st.stopper.Woken?)
  }

  lemma {:induction false} StaysShielded(st: State, steps: seq<Step>)
    requires Shielded(st) && RunOk(st, steps)
    ensures Shielded(Run(st, steps))
    decreases |steps|
  {
    if steps != [] {
      assert Shielded(Next(st, steps[0]));
      StaysShielded(Next(st, steps[0]), steps[1..]);
    }
  }

  /** In every state in which the stopper waits, a spurious wakeup makes that possible exactly
      when the handler thread does not hold the monitor to notify: then the stopper can go on
      at once, and otherwise only when that thread is done. */
  lemma SpuriousWakeupIff(st: State)
    requires Inv(st) && st.stopper.Waiting?
    ensures CanDeleteTooEarly(SpuriousWakeup(st)) <==> !st.looper.Notifying?
    ensures StopperEnabled(SpuriousWakeup(st), Relock) <==> !st.looper.Notifying?
  {
    var woken := SpuriousWakeup(st);
    assert StopperEnabled(woken, Relock) <==> !st.looper.Notifying? by {
      hide RefsOk, PipeOk;
    }
    if st.looper.Notifying? {
      forall steps | RunOk(woken, steps) ensures Shielded(Run(woken, steps)) {
        StaysShielded(woken, steps);
      }
    } else {
      GoesOn(woken);
      assert RunOk(woken, GoneOn()) && Run(woken, GoneOn()) == AfterWait(woken);
    }
  }

  /** The steps of Stop behind its wait. */
  function GoneOn(): seq<Step> {
    [ByStopper(Relock)] + ([ByStopper(StopperUnlock)] + ([ByStopper(Delete)] + []))
  }

  lemma GoesOn(st: State)
    requires StopperEnabled(st, Relock)
    ensures RunOk(st, GoneOn()) && Run(st, GoneOn()) == AfterWait(st)
  {
    var held := Next(st, ByStopper(Relock));
    var left := Next(held, ByStopper(StopperUnlock));
    RunFirst(left, ByStopper(Delete), []);
    RunFirst(held, ByStopper(StopperUnlock), [ByStopper(Delete)] + []);
    RunFirst(st, ByStopper(Relock), [ByStopper(StopperUnlock)] + ([ByStopper(Delete)] + []));
  }

  /** One such run: the handler is deleted while its thread is still in the loop. */
  lemma SpuriousWakeupDeletesTooEarly()
    ensures var st := Initial();
            var waiting := st.(stopper := Waiting, pipe := [ShutdownMessage]);
            && Inv(st) && RunOk(st, StopCalled()) && Run(st, StopCalled()) == waiting
            && AfterWait(SpuriousWakeup(waiting)) == waiting.(stopper := Deleted)
            && waiting.looper.Polling? && !waiting.shutdown
  {
    InitialInv();
    hide RefsOk, PipeOk, HandshakeOk;
    var st := Initial();
    StepKeepsInv(st, ByStopper(StopperLock));
    var locked := Next(st, ByStopper(StopperLock));
    StepKeepsInv(locked, ByStopper(SendShutdown));
    var sent := Next(locked, ByStopper(SendShutdown));
    StepKeepsInv(sent, ByStopper(Wait));
    RunFirst(sent, ByStopper(Wait), []);
    RunFirst(locked, ByStopper(SendShutdown), [ByStopper(Wait)] + []);
    RunFirst(st, ByStopper(StopperLock), [ByStopper(SendShutdown)] + ([ByStopper(Wait)] + []));
    assert st.pipe + [ShutdownMessage] == [ShutdownMessage];
  }

  lemma RunFirst(st: State, step: Step, rest: seq<Step>)
    requires Enabled(st, step) && RunOk(Next(st, step), rest)
    ensures RunOk(st, [step] + rest) && Run(st, [step] + rest) == Run(Next(st, step), rest)
  {
    hide Next, Enabled;
    assert ([step] + rest)[1..] == rest;
  }

  /** Where they lead. */
  function AfterWait(st: State): State
    requires StopperEnabled(st, Relock)
  {
    var held := StopperNext(st, Relock);
    assert StopperEnabled(held, StopperUnlock);
    var left := StopperNext(held, StopperUnlock);
    assert StopperEnabled(left, Delete);
    StopperNext(left, Delete)
  }

  /** The steps of Stop up to its wait. */
  function StopCalled(): seq<Step> {
    [ByStopper(StopperLock)] + ([ByStopper(SendShutdown)] + ([ByStopper(Wait)] + []))
  }
}
