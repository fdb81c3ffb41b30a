/** Descriptor state of runtime/bin/eventhandler.h as values: which Dart ports
    listen on a descriptor, how many notification tokens each has left, and, for
    a listening socket shared by several ports, the ring of ready readers. */
module Descriptors {
  import opened Common
  import opened Ring

  type Port = nat

  /** `ILLEGAL_PORT`: never the id of a real port. */
  const NO_PORT: Port := 0

  const SINGLE_QUOTA := 16
  const SHARED_QUOTA := 4

  /** The event bits of a mask; a mask is the set of its bits. */
  datatype Event = InEvent | OutEvent | ErrorEvent | CloseEvent | DestroyedEvent

  type Mask = set<Event>

  function Cost(disableTokens: bool): (c: nat)
  {
    if disableTokens then 0 else 1
  }

  // ---- A descriptor with a single listener.

  datatype Single = Single(port: Port, tokens: int, mask: Mask, disableTokens: bool) {
    function CurrentMask(): Mask {
      if tokens <= 0 then {} else mask
    }

    function Spend(): Single {
      this.(tokens := tokens - Cost(disableTokens))
    }

    function Return(count: nat): Single {
      this.(tokens := if disableTokens then tokens else tokens + count)
    }
  }

  function NewSingle(disableTokens: bool): Single {
    Single(NO_PORT, SINGLE_QUOTA, {}, disableTokens)
  }

  // ---- A descriptor shared by several listeners.

  datatype Entry = Entry(reading: bool, tokens: int) {
    predicate Ready() {
      tokens > 0 && reading
    }
  }

  datatype Shared = Shared(ports: map<Port, Entry>, ring: seq<Port>, disableTokens: bool) {
    predicate IsReady(p: Port) {
      p in ports && ports[p].Ready()
    }

    /** The ring holds exactly the ready ports, each once. */
    ghost predicate Coherent() {
      && Distinct(ring)
      && (forall p :: p in ring <==> IsReady(p))
    }

    function CurrentMask(): Mask {
      if ring != [] then {InEvent} else {}
    }

    /** The documented meaning of the mask: the union of the ports' masks, where a
        port without tokens counts as asking for nothing. */
    ghost function UnionMask(): Mask {
      set p | p in ports && ports[p].tokens > 0 && ports[p].reading :: InEvent
    }

    /** The ring after `ports[p]` becomes `e`, as SetPortAndMask and ReturnTokens keep it. */
    function Update(p: Port, e: Entry): Shared {
      var ring' :=
        if IsReady(p) && !e.Ready() then Without(ring, p)
        else if !IsReady(p) && e.Ready() then ring + [p]
        else ring;
      Shared(ports[p := e], ring', disableTokens)
    }

    function SetPortAndMask(p: Port, reading: bool): Shared {
      Update(p, if p in ports then ports[p].(reading := reading) else Entry(reading, SHARED_QUOTA))
    }

    function RemovePort(p: Port): Shared {
      Shared(ports - {p}, if IsReady(p) then Without(ring, p) else ring, disableTokens)
    }

    function ReturnTokens(p: Port, count: nat): Shared
      requires p in ports
    {
      Update(p, ports[p].(tokens := if disableTokens then ports[p].tokens else ports[p].tokens + count))
    }

    /** Spends a token of the port at the head and moves it to the back, or out of the
        ring when that was its last token. The second component is the port to notify. */
    function NextNotify(): (Shared, Port)
      requires Coherent()
    {
      if ring == [] then (this, NO_PORT)
      else
        var p := ring[0];
        assert p in ring;
        var e := ports[p].(tokens := ports[p].tokens - Cost(disableTokens));
        (Shared(ports[p := e], if e.tokens <= 0 then ring[1..] else ring[1..] + [p], disableTokens), p)
    }

    /** One token less for every port. */
    function Charged(): map<Port, Entry> {
      map p | p in ports :: ports[p].(tokens := ports[p].tokens - Cost(disableTokens))
    }

    function NotifyAll(): Shared {
      Shared(Charged(), Keep(ring, Charged()), disableTokens)
    }
  }

  function NewShared(disableTokens: bool): Shared {
    Shared(map[], [], disableTokens)
  }

  /** The members of `ring` that are ready in `ports`, in ring order. */
  function Keep(ring: seq<Port>, ports: map<Port, Entry>): (r: seq<Port>)
    ensures forall p :: p in r <==> p in ring && p in ports && ports[p].Ready()
  {
    if ring == [] then [] else
    (if ring[0] in ports && ports[ring[0]].Ready() then [ring[0]] else []) + Keep(ring[1..], ports)
  }

  lemma {:induction false} KeepDistinct(ring: seq<Port>, ports: map<Port, Entry>)
    requires Distinct(ring)
    ensures Distinct(Keep(ring, ports))
  {
    if ring != [] {
      KeepDistinct(ring[1..], ports);
    }
  }

  lemma {:induction false} KeepAll(ring: seq<Port>, ports: map<Port, Entry>)
    requires forall p :: p in ring ==> p in ports && ports[p].Ready()
    ensures Keep(ring, ports) == ring
  {
    if ring != [] {
      KeepAll(ring[1..], ports);
    }
  }

  /** Making one more port not ready takes exactly that port out of the filtered ring. */
  lemma {:induction false} KeepOneLess(ring: seq<Port>, ports: map<Port, Entry>, p: Port, e: Entry)
    requires Distinct(ring) && p in ports && (ports[p].Ready() || !e.Ready())
    ensures Keep(ring, ports[p := e]) ==
            if ports[p].Ready() && !e.Ready() then Without(Keep(ring, ports), p) else Keep(ring, ports)
  {
    if ring != [] {
      var head, rest := ring[0], ring[1..];
      if head == p {
        KeepUnaffected(rest, ports, p, e);
      } else {
        KeepOneLess(rest, ports, p, e);
        if head in ports && ports[head].Ready() {
          assert Keep(ring, ports)[1..] == Keep(rest, ports);
        } else {
          assert Keep(ring, ports) == Keep(rest, ports);
        }
      }
    }
  }

  lemma {:induction false} KeepUnaffected(ring: seq<Port>, ports: map<Port, Entry>, p: Port, e: Entry)
    requires p !in ring
    ensures Keep(ring, ports[p := e]) == Keep(ring, ports)
  {
    if ring != [] {
      KeepUnaffected(ring[1..], ports, p, e);
    }
  }

  lemma {:induction false} WithoutDistinct(s: seq<Port>, p: Port)
    requires Distinct(s)
    ensures Distinct(Without(s, p))
    ensures forall q :: q in Without(s, p) <==> q in s && q != p
  {
    if s != [] {
      WithoutDistinct(s[1..], p);
      assert s == [s[0]] + s[1..] && s[0] !in s[1..];
    }
  }

  // ---- Every operation keeps the ring coherent.

  lemma UpdateCoherent(s: Shared, p: Port, e: Entry)
    requires s.Coherent()
    ensures s.Update(p, e).Coherent()
  {
    WithoutDistinct(s.ring, p);
  }

  lemma RemovePortCoherent(s: Shared, p: Port)
    requires s.Coherent()
    ensures s.RemovePort(p).Coherent()
  {
    WithoutDistinct(s.ring, p);
  }

  lemma NextNotifyCoherent(s: Shared)
    requires s.Coherent()
    ensures s.NextNotify().0.Coherent()
    ensures s.ring != [] ==> s.IsReady(s.NextNotify().1)
  {
    if s.ring != [] {
      assert s.ring == [s.ring[0]] + s.ring[1..];
      assert s.ring[0] in s.ring && s.IsReady(s.ring[0]);
      var s' := s.NextNotify().0;
      forall p ensures p in s'.ring <==> s'.IsReady(p) {
        assert p in s.ring <==> s.IsReady(p);
        assert p in s.ring <==> p == s.ring[0] || p in s.ring[1..];
      }
    }
  }

  lemma NotifyAllCoherent(s: Shared)
    requires s.Coherent()
    ensures s.NotifyAll().Coherent()
  {
    KeepDistinct(s.ring, s.Charged());
  }

  /** The mask computed from the ring is the documented union of the ports' masks. */
  lemma MaskIsUnion(s: Shared)
    requires s.Coherent()
    ensures s.CurrentMask() == s.UnionMask()
  {
    if s.ring != [] {
      assert s.IsReady(s.ring[0]);
    } else if p :| p in s.ports && s.ports[p].Ready() {
      assert s.IsReady(p);
    }
  }

  // ---- Operations as data, runs of them, and round-robin fairness.

  datatype Op =
    | SetMask(port: Port, reading: bool)
    | Remove(port: Port)
    | Return(port: Port, count: nat)
    | Broadcast
    | Notify

  predicate Allowed(s: Shared, op: Op) {
    op.Return? ==> op.port in s.ports
  }

  function Apply(s: Shared, op: Op): Shared
    requires Allowed(s, op) && s.Coherent()
  {
    match op
    case SetMask(p, reading) => s.SetPortAndMask(p, reading)
    case Remove(p) => s.RemovePort(p)
    case Return(p, count) => s.ReturnTokens(p, count)
    case Broadcast => s.NotifyAll()
    case Notify => s.NextNotify().0
  }

  lemma ApplyCoherent(s: Shared, op: Op)
    requires s.Coherent()
    ensures Allowed(s, op) ==> Apply(s, op).Coherent()
  {
    if Allowed(s, op) {
      match op
      case SetMask(p, reading) =>
        UpdateCoherent(s, p, if p in s.ports then s.ports[p].(reading := reading) else Entry(reading, SHARED_QUOTA));
      case Remove(p) => RemovePortCoherent(s, p);
      case Return(p, count) =>
        UpdateCoherent(s, p, s.ports[p].(tokens := if s.disableTokens then s.ports[p].tokens else s.ports[p].tokens + count));
      case Broadcast => NotifyAllCoherent(s);
      case Notify => NextNotifyCoherent(s);
    }
  }

  ghost predicate RunAllowed(s: Shared, ops: seq<Op>)
    requires s.Coherent()
    decreases |ops|
  {
    ApplyCoherent(s, if ops == [] then Notify else ops[0]);
    ops == [] || (Allowed(s, ops[0]) && RunAllowed(Apply(s, ops[0]), ops[1..]))
  }

  ghost function Run(s: Shared, ops: seq<Op>): (r: Shared)
    requires s.Coherent() && RunAllowed(s, ops)
    ensures r.Coherent()
    decreases |ops|
  {
    ApplyCoherent(s, if ops == [] then Notify else ops[0]);
    if ops == [] then s else Run(Apply(s, ops[0]), ops[1..])
  }

  /** From the initial state, every run ends with the ring holding exactly the
      ready ports, each once, and with the mask equal to its documented meaning. */
  lemma RingAgreesInEveryRun(ops: seq<Op>, disableTokens: bool)
    requires RunAllowed(NewShared(disableTokens), ops)
    ensures Run(NewShared(disableTokens), ops).Coherent()
    ensures Run(NewShared(disableTokens), ops).CurrentMask() == Run(NewShared(disableTokens), ops).UnionMask()
  {
    MaskIsUnion(Run(NewShared(disableTokens), ops));
  }

  /** The ports returned by the Notify operations of a run, in order. */
  ghost function Notified(s: Shared, ops: seq<Op>): seq<Port>
    requires s.Coherent() && RunAllowed(s, ops)
    decreases |ops|
  {
    ApplyCoherent(s, if ops == [] then Notify else ops[0]);
    if ops == [] then []
    else (if ops[0].Notify? then [s.NextNotify().1] else []) + Notified(Apply(s, ops[0]), ops[1..])
  }

  /** `p` is ready before every operation up to and including the one that notifies it. */
  ghost predicate ReadyUntilServed(s: Shared, ops: seq<Op>, p: Port)
    requires s.Coherent() && RunAllowed(s, ops)
    decreases |ops|
  {
    ApplyCoherent(s, if ops == [] then Notify else ops[0]);
    ops == [] ||
    (&& s.IsReady(p)
     && ((ops[0].Notify? && s.NextNotify().1 == p) || ReadyUntilServed(Apply(s, ops[0]), ops[1..], p)))
  }

  ghost function IndexOf(s: seq<Port>, p: Port): (k: nat)
    requires p in s
    ensures k < |s| && s[k] == p
  {
    if s[0] == p then 0 else 1 + IndexOf(s[1..], p)
  }

  /** No operation moves a port that stays in the ring away from the head, and a
      notification of another port moves it one place closer. */
  lemma PositionNeverGrows(s: Shared, op: Op, p: Port)
    requires s.Coherent() && Allowed(s, op) && s.IsReady(p)
    requires Apply(s, op).IsReady(p)
    requires op.Notify? ==> s.NextNotify().1 != p
    ensures (ApplyCoherent(s, op); IndexOf(Apply(s, op).ring, p) + (if op.Notify? then 1 else 0) <= IndexOf(s.ring, p))
  {
    ApplyCoherent(s, op);
    match op
    case SetMask(q, _) =>
      if q != p { IndexWithout(s.ring, q, p); }
      if p in s.ring { IndexAppend(s.ring, [q], p); }
    case Remove(q) =>
      if q != p { IndexWithout(s.ring, q, p); }
    case Return(q, _) =>
      if q != p { IndexWithout(s.ring, q, p); }
      IndexAppend(s.ring, [q], p);
    case Broadcast =>
      IndexKeep(s.ring, s.Charged(), p);
    case Notify =>
      assert s.ring == [s.ring[0]] + s.ring[1..];
      IndexAppend(s.ring[1..], [s.ring[0]], p);
  }

  lemma {:induction false} IndexWithout(s: seq<Port>, q: Port, p: Port)
    requires p in s && q != p
    ensures p in Without(s, q) && IndexOf(Without(s, q), p) <= IndexOf(s, p)
  {
    if s[0] != p && s[0] != q {
      IndexWithout(s[1..], q, p);
      assert Without(s, q)[1..] == Without(s[1..], q);
    } else if s[0] == p {
      assert Without(s, q)[0] == p;
    }
  }

  lemma {:induction false} IndexAppend(s: seq<Port>, t: seq<Port>, p: Port)
    requires p in s
    ensures IndexOf(s + t, p) == IndexOf(s, p)
  {
    if s[0] != p {
      assert (s + t)[1..] == s[1..] + t;
      IndexAppend(s[1..], t, p);
    }
  }

  lemma {:induction false} IndexKeep(s: seq<Port>, ports: map<Port, Entry>, p: Port)
    requires p in s && p in ports && ports[p].Ready()
    ensures p in Keep(s, ports) && IndexOf(Keep(s, ports), p) <= IndexOf(s, p)
  {
    if s[0] != p {
      IndexKeep(s[1..], ports, p);
      if s[0] in ports && ports[s[0]].Ready() {
        assert Keep(s, ports)[1..] == Keep(s[1..], ports);
      } else {
        assert Keep(s, ports) == Keep(s[1..], ports);
      }
    } else {
      assert Keep(s, ports)[0] == p;
    }
  }

  lemma PrefixMember(s: seq<Port>, n: nat, before: seq<Port>, m: nat, p: Port)
    requires n <= |s| && p in s[..n] && n + |before| <= m <= |before + s|
    ensures p in (before + s)[..m]
  {
    var i :| 0 <= i < n && s[i] == p;
    assert (before + s)[..m][i + |before|] == p;
  }

  /** Round-robin fairness: a port at ring position k that stays ready is among the
      first k + 1 ports notified, whatever else happens in between. */
  lemma {:induction false} RoundRobin(s: Shared, ops: seq<Op>, p: Port)
    requires s.Coherent() && RunAllowed(s, ops) && p in s.ring
    requires ReadyUntilServed(s, ops, p)
    requires |Notified(s, ops)| > IndexOf(s.ring, p)
    ensures p in Notified(s, ops)[..IndexOf(s.ring, p) + 1]
    decreases |ops|
  {
    ApplyCoherent(s, ops[0]);
    var s', rest, k := Apply(s, ops[0]), ops[1..], IndexOf(s.ring, p);
    if ops[0].Notify? && s.NextNotify().1 == p {
      assert Notified(s, ops)[0] == p;
    } else {
      PositionNeverGrows(s, ops[0], p);
      RoundRobin(s', rest, p);
      PrefixMember(Notified(s', rest), IndexOf(s'.ring, p) + 1, if ops[0].Notify? then [s.NextNotify().1] else [],
                   k + 1, p);
    }
  }
}
