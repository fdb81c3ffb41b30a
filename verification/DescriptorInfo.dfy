/** The two descriptor mixins of runtime/bin/eventhandler.h as objects: their
    fields are updated in place, and every method is proved against the value
    functions of module Descriptors. */
module DescriptorInfo {
  import opened Common
  import opened Ring
  import opened Descriptors

  /** A descriptor with a single listener. */
  class DescriptorInfoSingle {
    var port: Port
    var tokens: int
    var mask: Mask
    const fd: nat
    const disableTokens: bool

    ghost function View(): Single
      reads this
    {
      Single(port, tokens, mask, disableTokens)
    }

    constructor (fd: nat, disable: bool)
      ensures View() == NewSingle(disable) && this.fd == fd
    {
      port, tokens, mask, this.fd, disableTokens := NO_PORT, SINGLE_QUOTA, {}, fd, disable;
    }

    method SetPortAndMask(p: Port, m: Mask)
      requires port == NO_PORT || port == p
      modifies this
      ensures View() == old(View()).(port := p, mask := m)
    {
      port, mask := p, m;
    }

    method RemovePort(p: Port)
      requires port == NO_PORT || port == p
      modifies this
      ensures View() == old(View()).(port := NO_PORT, mask := {})
    {
      port, mask := NO_PORT, {};
    }

    method NextNotifyDartPort() returns (p: Port)
      modifies this
      ensures View() == old(View()).Spend() && p == old(port)
    {
      if !disableTokens {
        tokens := tokens - 1;
      }
      p := port;
    }

    /** Posts to the port, if there is one, and spends a token either way. */
    method NotifyAllDartPorts() returns (posted: seq<Port>)
      modifies this
      ensures View() == old(View()).Spend()
      ensures posted == if old(port) == NO_PORT then [] else [old(port)]
    {
      posted := if port != NO_PORT then [port] else [];
      if !disableTokens {
        tokens := tokens - 1;
      }
    }

    method ReturnTokens(p: Port, count: nat)
      requires port == p
      requires disableTokens || tokens + count <= SINGLE_QUOTA
      modifies this
      ensures View() == old(View()).Return(count)
    {
      if !disableTokens {
        tokens := tokens + count;
      }
    }

    method GetMask() returns (m: Mask)
      ensures m == View().CurrentMask()
    {
      if tokens <= 0 {
        return {};
      }
      return mask;
    }
  }

  class PortEntry {
    const dartPort: Port
    var isReading: bool
    var tokenCount: int

    constructor (p: Port, reading: bool, tokens: int)
      ensures dartPort == p && isReading == reading && tokenCount == tokens
    {
      dartPort, isReading, tokenCount := p, reading, tokens;
    }

    ghost function View(): Entry
      reads this
    {
      Entry(isReading, tokenCount)
    }

    predicate IsReady()
      reads this
    {
      tokenCount > 0 && isReading
    }
  }

  /** Taking an entry out of a list of filed entries takes its port out of the list of their ports. */
  lemma {:induction false} PortsWithout(entries: seq<PortEntry>, ports: seq<Port>, e: PortEntry)
    requires |ports| == |entries|
    requires forall i :: 0 <= i < |ports| ==> entries[i].dartPort == ports[i] && (ports[i] == e.dartPort ==> entries[i] == e)
    ensures |Without(ports, e.dartPort)| == |Without(entries, e)|
    ensures forall i :: 0 <= i < |Without(entries, e)| ==>
                          && Without(entries, e)[i].dartPort == Without(ports, e.dartPort)[i]
                          && Without(entries, e)[i] in entries
  {
    if entries != [] {
      PortsWithout(entries[1..], ports[1..], e);
    }
  }

  /** NextNotify told as the two updates the object makes: of the entry, then of the ring. */
  lemma NextNotifySteps(s: Shared, left: int)
    requires s.Coherent() && s.ring != [] && s.ring[0] in s.ports
    requires left == s.ports[s.ring[0]].tokens - Cost(s.disableTokens)
    ensures s.NextNotify().0.Coherent()
    ensures s.NextNotify() ==
            (Shared(s.ports[s.ring[0] := Entry(s.ports[s.ring[0]].reading, left)],
                    if left <= 0 then s.ring[1..] else s.ring[1..] + [s.ring[0]], s.disableTokens),
             s.ring[0])
  {
    NextNotifyCoherent(s);
  }

  /** `order` lists the members of `keys`, each once: the order in which a hash map
      happens to enumerate its keys. */
  ghost predicate Enumerates(order: seq<Port>, keys: set<Port>)
    decreases |order|
  {
    if order == [] then keys == {} else order[0] in keys && Enumerates(order[1..], keys - {order[0]})
  }

  lemma {:induction false} EnumeratesAt(order: seq<Port>, keys: set<Port>, i: nat)
    requires Enumerates(order, keys) && i < |order|
    ensures order[i] in keys
  {
    if i > 0 {
      EnumeratesAt(order[1..], keys - {order[0]}, i - 1);
    }
  }

  lemma {:induction false} EnumeratesExactly(order: seq<Port>, keys: set<Port>)
    requires Enumerates(order, keys)
    ensures (set p | p in order) == keys
  {
    if order != [] {
      EnumeratesExactly(order[1..], keys - {order[0]});
      assert (set p | p in order) == (set p | p in order[1..]) + {order[0]} && keys == keys - {order[0]} + {order[0]};
    }
  }

  method Enumerate(keys: set<Port>) returns (order: seq<Port>)
    ensures Enumerates(order, keys)
    decreases |keys|
  {
    if keys == {} {
      return [];
    }
    var p :| p in keys;
    var rest := Enumerate(keys - {p});
    return [p] + rest;
  }

  /** One port charged a token, as the broadcast loop does it. */
  ghost function ChargeOne(s: Shared, p: Port): Shared
    requires p in s.ports
  {
    var e := s.ports[p].(tokens := s.ports[p].tokens - Cost(s.disableTokens));
    Shared(s.ports[p := e], if s.IsReady(p) && !e.Ready() then Without(s.ring, p) else s.ring, s.disableTokens)
  }

  /** The first i ports of `order` charged. */
  ghost function ChargeFirst(s: Shared, order: seq<Port>, i: nat): (r: Shared)
    requires i <= |order| && forall j :: 0 <= j < |order| ==> order[j] in s.ports
    ensures r.ports.Keys == s.ports.Keys && r.disableTokens == s.disableTokens
  {
    if i == 0 then s else ChargeOne(ChargeFirst(s, order, i - 1), order[i - 1])
  }

  /** A broadcast under way: the ports in `pending` have still to be charged. */
  ghost function Broadcasting(s: Shared, pending: set<Port>): Shared {
    var ports := map p | p in s.ports :: if p in pending then s.ports[p] else s.Charged()[p];
    Shared(ports, Keep(s.ring, ports), s.disableTokens)
  }

  lemma BroadcastStep(s: Shared, pending: set<Port>, p: Port)
    requires Distinct(s.ring) && p in pending && p in s.ports
    ensures Broadcasting(s, pending - {p}) == ChargeOne(Broadcasting(s, pending), p)
  {
    var now, e := Broadcasting(s, pending), s.Charged()[p];
    KeepOneLess(s.ring, now.ports, p, e);
    assert Broadcasting(s, pending - {p}).ports == now.ports[p := e];
  }

  lemma {:induction false} ChargeFirstIs(s: Shared, order: seq<Port>, i: nat, pending: set<Port>)
    requires s.Coherent() && i <= |order| && (forall j :: 0 <= j < |order| ==> order[j] in s.ports)
    requires Enumerates(order[i..], pending) && ChargeFirst(s, order, i) == Broadcasting(s, pending)
    ensures ChargeFirst(s, order, |order|) == Broadcasting(s, {})
    decreases |order| - i
  {
    if i < |order| {
      BroadcastStep(s, pending, order[i]);
      assert order[i..][1..] == order[i + 1..];
      ChargeFirstIs(s, order, i + 1, pending - {order[i]});
    }
  }

  /** Charging the ports one by one, in any order, is the broadcast. */
  lemma ChargeAllIsNotifyAll(s: Shared, order: seq<Port>)
    requires s.Coherent() && Enumerates(order, s.ports.Keys)
    ensures forall j :: 0 <= j < |order| ==> order[j] in s.ports
    ensures ChargeFirst(s, order, |order|) == s.NotifyAll() && s.NotifyAll().Coherent()
  {
    forall j | 0 <= j < |order| ensures order[j] in s.ports {
      EnumeratesAt(order, s.ports.Keys, j);
    }
    KeepAll(s.ring, s.ports);
    assert Broadcasting(s, s.ports.Keys).ports == s.ports;
    assert order[0..] == order;
    ChargeFirstIs(s, order, 0, s.ports.Keys);
    assert Broadcasting(s, {}).ports == s.Charged();
    NotifyAllCoherent(s);
  }

  /** `ring` after the first i ports of `order` have been taken out of it. */
  ghost function WithoutFirst(ring: seq<Port>, order: seq<Port>, i: nat): seq<Port>
    requires i <= |order|
  {
    if i == 0 then ring else Without(WithoutFirst(ring, order, i - 1), order[i - 1])
  }

  lemma {:induction false} WithoutFirstIn(ring: seq<Port>, order: seq<Port>, i: nat, pending: set<Port>)
    requires i <= |order| && Enumerates(order[i..], pending)
    requires Distinct(WithoutFirst(ring, order, i)) && forall p :: p in WithoutFirst(ring, order, i) ==> p in pending
    ensures WithoutFirst(ring, order, |order|) == []
    decreases |order| - i
  {
    var left := WithoutFirst(ring, order, i);
    assert left != [] ==> left[0] in left;
    if i < |order| {
      WithoutDistinct(WithoutFirst(ring, order, i), order[i]);
      assert order[i..][1..] == order[i + 1..];
      WithoutFirstIn(ring, order, i + 1, pending - {order[i]});
    }
  }

  /** Taking every port of the map out of the ring leaves the ring empty. */
  lemma WithoutAllIsEmpty(s: Shared, order: seq<Port>)
    requires s.Coherent() && Enumerates(order, s.ports.Keys)
    ensures WithoutFirst(s.ring, order, |order|) == []
    ensures forall j :: 0 <= j < |order| ==> order[j] in s.ports
  {
    forall j | 0 <= j < |order| ensures order[j] in s.ports {
      EnumeratesAt(order, s.ports.Keys, j);
    }
    assert order[0..] == order;
    WithoutFirstIn(s.ring, order, 0, s.ports.Keys);
  }

  /** The entries of the first i ports of `order`. */
  ghost function EntriesFor(m: map<Port, PortEntry>, order: seq<Port>, i: nat): (r: seq<PortEntry>)
    requires i <= |order| && forall j :: 0 <= j < |order| ==> order[j] in m
    ensures |r| == i && forall j :: 0 <= j < i ==> r[j] == m[order[j]]
  {
    if i == 0 then [] else EntriesFor(m, order, i - 1) + [m[order[i - 1]]]
  }

  /** How many of the ports from position i on are ready. */
  ghost function ReadyFrom(s: Shared, order: seq<Port>, i: nat): nat
    requires i <= |order|
    decreases |order| - i
  {
    if i == |order| then 0 else (if s.IsReady(order[i]) then 1 else 0) + ReadyFrom(s, order, i + 1)
  }

  ghost function ReadyIn(s: Shared, ports: set<Port>): set<Port> {
    set p | p in ports && s.IsReady(p)
  }

  lemma {:induction false} ReadyFromIs(s: Shared, order: seq<Port>, i: nat, pending: set<Port>)
    requires i <= |order| && Enumerates(order[i..], pending)
    ensures ReadyFrom(s, order, i) == |ReadyIn(s, pending)|
    decreases |order| - i
  {
    if i == |order| {
      assert ReadyIn(s, pending) == {};
    } else {
      var p := order[i];
      assert order[i..][1..] == order[i + 1..];
      ReadyFromIs(s, order, i + 1, pending - {p});
      assert ReadyIn(s, pending) == ReadyIn(s, pending - {p}) + (if s.IsReady(p) then {p} else {});
    }
  }

  /** As many ready ports in the map, in whatever order, as places in the ring. */
  lemma ReadyCount(s: Shared, order: seq<Port>)
    requires s.Coherent() && Enumerates(order, s.ports.Keys)
    ensures |s.ring| == ReadyFrom(s, order, 0)
  {
    assert order[0..] == order;
    ReadyFromIs(s, order, 0, s.ports.Keys);
    assert ReadyIn(s, s.ports.Keys) == Elements(s.ring);
    DistinctCount(s.ring);
  }

  lemma {:induction false} DistinctCount(s: seq<Port>)
    requires Distinct(s)
    ensures |Elements(s)| == |s|
  {
    if s != [] {
      var last, rest := s[|s| - 1], s[..|s| - 1];
      DistinctCount(rest);
      assert last !in Elements(rest);
      assert s == rest + [last];
      assert Elements(s) == Elements(rest) + {last};
    }
  }

  /** The ring read from position k on. */
  ghost function Turned(ring: seq<Port>, k: nat): seq<Port>
    requires k <= |ring|
  {
    ring[k..] + ring[..k]
  }

  lemma TurnStep(ring: seq<Port>, k: nat)
    requires k < |ring| && Distinct(ring)
    ensures var r := Turned(ring, k); r[0] == ring[k] && r[1..] + [r[0]] == Turned(ring, k + 1)
    ensures Turned(ring, 0) == ring == Turned(ring, |ring|)
    ensures Turned(ring, k + 1)[0] == ring[0] <==> k + 1 == |ring|
  {
  }

  /** A descriptor shared by several listeners: a map from port to entry and a ring
      of pointers to those entries that are ready. */
  class DescriptorInfoMultiple {
    const activeReaders: CircularLinkedList<PortEntry>
    var tokensMap: map<Port, PortEntry>
    const fd: nat
    const disableTokens: bool
    ghost var view: Shared
    ghost var repr: set<PortEntry>

    /** The entry for a port is the one filed under that port. */
    ghost predicate Filed(e: PortEntry)
      reads this
    {
      e.dartPort in tokensMap && tokensMap[e.dartPort] == e
    }

    /** `view` is what the map and the ring hold, and both point to the same entries. */
    ghost predicate Wired()
      reads this, activeReaders, activeReaders.nodes, repr
    {
      && activeReaders.Valid()
      && view.disableTokens == disableTokens
      && view.ports.Keys == tokensMap.Keys
      && (forall p :: p in tokensMap ==> tokensMap[p] in repr && tokensMap[p].dartPort == p && tokensMap[p].View() == view.ports[p])
      && |view.ring| == |activeReaders.nodes|
      && (forall i :: 0 <= i < |view.ring| ==> view.ring[i] in tokensMap &&
                                               tokensMap[view.ring[i]] == activeReaders.nodes[i].value)
    }

    ghost predicate Valid()
      reads this, activeReaders, activeReaders.nodes, repr
    {
      Wired() && view.Coherent()
    }

    constructor (fd: nat, disable: bool)
      ensures Valid() && view == NewShared(disable) && this.fd == fd
      ensures fresh(activeReaders) && activeReaders.cells == {} && repr == {}
    {
      activeReaders := new CircularLinkedList<PortEntry>();
      tokensMap, this.fd, disableTokens, view, repr := map[], fd, disable, NewShared(disable), {};
    }

    /** Takes an entry out of the ring of active readers. */
    method Deactivate(e: PortEntry)
      requires Wired() && Filed(e)
      modifies this`view, activeReaders, activeReaders.cells
      ensures Wired() && activeReaders.cells == old(activeReaders.cells)
      ensures view == old(view).(ring := Without(old(view).ring, e.dartPort))
    {
      PortsWithout(activeReaders.Contents(), view.ring, e);
      ghost var before := activeReaders.Contents();
      activeReaders.Remove(e);
      view := view.(ring := Without(view.ring, e.dartPort));
      forall i | 0 <= i < |view.ring|
        ensures view.ring[i] in tokensMap && tokensMap[view.ring[i]] == activeReaders.nodes[i].value
      {
        ghost var x := activeReaders.Contents()[i];
        assert x in before;
        ghost var j :| 0 <= j < |before| && before[j] == x;
        assert old(view).ring[j] == view.ring[i];
      }
    }

    /** Puts an entry at the end of the ring of active readers. */
    method Activate(e: PortEntry)
      requires Wired() && Filed(e)
      modifies this`view, activeReaders, activeReaders.cells
      ensures Wired() && fresh(activeReaders.cells - old(activeReaders.cells))
      ensures view == old(view).(ring := old(view).ring + [e.dartPort])
    {
      ghost var before := activeReaders.Contents();
      var _ := activeReaders.Add(e);
      view := view.(ring := view.ring + [e.dartPort]);
      assert forall i :: 0 <= i < |view.ring| ==> activeReaders.nodes[i].value == (before + [e])[i];
    }

    /** Overwrites both fields of a filed entry. */
    method Assign(e: PortEntry, reading: bool, tokens: int)
      requires Wired() && Filed(e)
      modifies this`view, e
      ensures Wired()
      ensures view == old(view).(ports := old(view).ports[e.dartPort := Entry(reading, tokens)])
    {
      e.isReading, e.tokenCount := reading, tokens;
      view := view.(ports := view.ports[e.dartPort := Entry(reading, tokens)]);
    }

    /** Files a new entry with a full quota. */
    method Insert(port: Port, reading: bool) returns (e: PortEntry)
      requires Wired() && port !in tokensMap
      modifies this
      ensures Wired() && fresh(e) && repr == old(repr) + {e} && tokensMap == old(tokensMap)[port := e] && e.dartPort == port
      ensures view == old(view).(ports := old(view).ports[port := Entry(reading, SHARED_QUOTA)])
    {
      e := new PortEntry(port, reading, SHARED_QUOTA);
      tokensMap := tokensMap[port := e];
      repr := repr + {e};
      view := view.(ports := view.ports[port := Entry(reading, SHARED_QUOTA)]);
    }

    /** Drops the entry of a port that is not in the ring. */
    method Discard(port: Port)
      requires Wired() && port !in view.ring
      modifies this`tokensMap, this`view
      ensures Wired() && tokensMap == old(tokensMap) - {port}
      ensures view == old(view).(ports := old(view).ports - {port})
    {
      tokensMap := tokensMap - {port};
      view := view.(ports := view.ports - {port});
    }

    /** Drops the head of the ring. */
    method DropHead()
      requires Wired() && view.ring != []
      modifies this`view, activeReaders, activeReaders.cells
      ensures Wired() && activeReaders.cells == old(activeReaders.cells)
      ensures view == old(view).(ring := old(view).ring[1..])
    {
      var _ := activeReaders.RemoveHead();
      view := view.(ring := view.ring[1..]);
    }

    /** Moves the head of the ring to the back. */
    method RotateReaders()
      requires Wired() && view.ring != []
      modifies this`view, activeReaders
      ensures Wired() && activeReaders.cells == old(activeReaders.cells)
      ensures view == old(view).(ring := old(view).ring[1..] + [old(view).ring[0]])
    {
      activeReaders.Rotate();
      view := view.(ring := view.ring[1..] + [view.ring[0]]);
    }

    /** The entry at the head of the ring. */
    method FirstReader() returns (e: PortEntry)
      requires Wired() && view.ring != []
      ensures Filed(e) && e.dartPort == view.ring[0] && e.dartPort in view.ports && e.View() == view.ports[e.dartPort]
    {
      e := activeReaders.Head();
    }

    /** Takes the entry of a port out of the ring, if it is there. */
    method Detach(p: Port) returns (e: PortEntry)
      requires Wired() && p in tokensMap
      modifies this`view, activeReaders, activeReaders.cells
      ensures Wired() && activeReaders.cells == old(activeReaders.cells) && e == tokensMap[p]
      ensures view == old(view).(ring := Without(old(view).ring, p))
    {
      e := tokensMap[p];
      Deactivate(e);
    }

    method HasReader() returns (any: bool)
      requires Wired()
      ensures any <==> view.ring != []
    {
      any := activeReaders.HasHead();
    }

    /** Charges one port a token. */
    method Charge(p: Port)
      requires Wired() && p in view.ports
      modifies this`view, activeReaders, activeReaders.cells, repr
      ensures Wired() && activeReaders.cells == old(activeReaders.cells)
      ensures view == ChargeOne(old(view), p)
    {
      var e := tokensMap[p];
      var wasReady := e.IsReady();
      Assign(e, e.isReading, e.tokenCount - Cost(disableTokens));
      if wasReady && e.tokenCount <= 0 {
        Deactivate(e);
      }
    }

    method SetPortAndMask(port: Port, mask: Mask)
      requires Valid()
      requires mask == {InEvent} || mask == {}
      modifies this, activeReaders, activeReaders.cells, repr
      ensures Valid() && fresh(repr - old(repr)) && fresh(activeReaders.cells - old(activeReaders.cells))
      ensures view == old(view).SetPortAndMask(port, mask == {InEvent})
    {
      ghost var was := view;
      var reading := mask == {InEvent};
      if port !in tokensMap {
        UpdateCoherent(was, port, Entry(reading, SHARED_QUOTA));
        var e := Insert(port, reading);
        if reading {
          Activate(e);
        }
      } else {
        SetReading(port, reading);
      }
    }

    /** Changes what a known port asks for. */
    method SetReading(port: Port, reading: bool)
      requires Valid() && port in tokensMap
      modifies this`view, activeReaders, activeReaders.cells, repr
      ensures Valid() && view == old(view).SetPortAndMask(port, reading) && fresh(activeReaders.cells - old(activeReaders.cells))
    {
      ghost var was := view;
      var e := tokensMap[port];
      UpdateCoherent(was, port, was.ports[port].(reading := reading));
      var wasReady := e.IsReady();
      Assign(e, reading, e.tokenCount);
      var isReady := e.IsReady();
      if wasReady && !isReady {
        Deactivate(e);
      } else if !wasReady && isReady {
        Activate(e);
      }
    }

    method RemovePort(port: Port)
      requires Valid()
      modifies this`tokensMap, this`view, activeReaders, activeReaders.cells
      ensures Valid() && tokensMap == old(tokensMap) - {port} && activeReaders.cells == old(activeReaders.cells)
      ensures view == old(view).RemovePort(port)
    {
      ghost var was := view;
      RemovePortCoherent(was, port);
      WithoutDistinct(was.ring, port);
      if port in tokensMap {
        var e := tokensMap[port];
        if e.IsReady() {
          Deactivate(e);
        }
        Discard(port);
      } else {
        assert was.ports - {port} == was.ports;
      }
    }

    method NextNotifyDartPort() returns (port: Port)
      requires Valid()
      modifies this`view, activeReaders, activeReaders.cells, repr
      ensures Valid() && (view, port) == old(view).NextNotify() && activeReaders.cells == old(activeReaders.cells)
    {
      ghost var was := view;
      var any := HasReader();
      if any {
        var e := FirstReader();
        var left := e.tokenCount - Cost(disableTokens);
        NextNotifySteps(was, left);
        Assign(e, e.isReading, left);
        if left <= 0 {
          DropHead();
        } else {
          RotateReaders();
        }
        return e.dartPort;
      }
      return NO_PORT;
    }

    /** Posts to every port once, in the map's order, and charges each a token. */
    method NotifyAllDartPorts() returns (posted: seq<Port>)
      requires Valid()
      modifies this`view, activeReaders, activeReaders.cells, repr
      ensures Valid() && view == old(view).NotifyAll() && activeReaders.cells == old(activeReaders.cells)
      ensures Enumerates(posted, old(view).ports.Keys)
    {
      posted := Enumerate(tokensMap.Keys);
      ChargeAllIsNotifyAll(view, posted);
      ChargeAll(view, posted);
    }

    /** The loop of a broadcast over the entries of the map. */
    method ChargeAll(ghost was: Shared, order: seq<Port>)
      requires Wired() && view == was && forall j :: 0 <= j < |order| ==> order[j] in was.ports
      modifies this`view, activeReaders, activeReaders.cells, repr
      ensures Wired() && view == ChargeFirst(was, order, |order|) && activeReaders.cells == old(activeReaders.cells)
    {
      hide Wired;
      for i := 0 to |order|
        invariant Wired() && repr == old(repr) && activeReaders.cells == old(activeReaders.cells)
        invariant view == ChargeFirst(was, order, i)
      {
        assert order[i] in view.ports;
        Charge(order[i]);
      }
    }

    method ReturnTokens(port: Port, count: nat)
      requires Valid() && port in tokensMap
      requires disableTokens || tokensMap[port].tokenCount + count <= SHARED_QUOTA
      modifies this`view, activeReaders, activeReaders.cells, tokensMap[port]
      ensures Valid() && view == old(view).ReturnTokens(port, count) && fresh(activeReaders.cells - old(activeReaders.cells))
    {
      ghost var was := view;
      var e := tokensMap[port];
      var wasReady := e.IsReady();
      var left := if disableTokens then e.tokenCount else e.tokenCount + count;
      UpdateCoherent(was, port, Entry(e.isReading, left));
      Assign(e, e.isReading, left);
      hide Wired;
      if !wasReady && e.IsReady() {
        Activate(e);
      }
    }

    method GetMask() returns (m: Mask)
      requires Valid()
      ensures m == view.CurrentMask() == view.UnionMask()
    {
      MaskIsUnion(view);
      var any := activeReaders.HasHead();
      m := if any then {InEvent} else {};
    }

    /** Frees every entry exactly once, in the order the map lists its ports: the map's
        loop frees them all, and the final clearing pass over the ring finds nothing
        left to free. */
    method RemoveAllPorts() returns (order: seq<Port>, freed: seq<PortEntry>, leftovers: seq<PortEntry>)
      requires Valid()
      modifies this`tokensMap, this`view, activeReaders, activeReaders.cells
      ensures Valid() && view == NewShared(disableTokens) && activeReaders.cells == old(activeReaders.cells)
      ensures Enumerates(order, old(tokensMap).Keys) && (forall j :: 0 <= j < |order| ==> order[j] in old(tokensMap))
      ensures freed == EntriesFor(old(tokensMap), order, |order|) && leftovers == []
    {
      order := Enumerate(tokensMap.Keys);
      WithoutAllIsEmpty(view, order);
      freed := DeleteEntries(view.ring, order);
      tokensMap, view := map[], NewShared(disableTokens);
      leftovers := activeReaders.RemoveAll();
    }

    /** The loop over the map: takes each entry out of the ring and frees it. */
    method DeleteEntries(ghost ring: seq<Port>, order: seq<Port>) returns (freed: seq<PortEntry>)
      requires Wired() && view.ring == ring && forall j :: 0 <= j < |order| ==> order[j] in tokensMap
      modifies this`view, activeReaders, activeReaders.cells
      ensures Wired() && view.ring == WithoutFirst(ring, order, |order|) && activeReaders.cells == old(activeReaders.cells)
      ensures freed == EntriesFor(tokensMap, order, |order|)
    {
      hide Wired;
      freed := [];
      for i := 0 to |order|
        invariant Wired() && activeReaders.cells == old(activeReaders.cells)
        invariant view.ring == WithoutFirst(ring, order, i)
        invariant freed == EntriesFor(tokensMap, order, i)
      {
        assert order[i] in tokensMap;
        var e := Detach(order[i]);
        freed := freed + [e];
      }
    }

    /** One turn around the ring, counting entries and checking each is ready. */
    method CountRing() returns (count: nat)
      requires Valid()
      modifies this`view, activeReaders, activeReaders.cells
      ensures Valid() && view == old(view) && count == |view.ring| && activeReaders.cells == old(activeReaders.cells)
    {
      count := 0;
      var any := HasReader();
      if any {
        count := CountFrom(view);
      }
    }

    method CountFrom(ghost was: Shared) returns (count: nat)
      requires Wired() && view == was && was.Coherent() && was.ring != []
      modifies this`view, activeReaders, activeReaders.cells
      ensures Wired() && view == was && count == |was.ring| && activeReaders.cells == old(activeReaders.cells)
    {
      var root := FirstReader();
      var current := root;
      count := 0;
      TurnStep(was.ring, 0);
      while true
        invariant Wired() && activeReaders.cells == old(activeReaders.cells)
        invariant 0 <= count < |was.ring| && view == was.(ring := Turned(was.ring, count))
        invariant Filed(current) && current.dartPort == was.ring[count]
        decreases |was.ring| - count
      {
        current := StepRing(was, count, root, current);
        count := count + 1;
        if current == root {
          return;
        }
      }
    }

    /** Checks the entry at the head, moves it to the back and returns the next one. */
    method StepRing(ghost was: Shared, ghost k: nat, root: PortEntry, current: PortEntry) returns (next: PortEntry)
      requires Wired() && was.Coherent() && k < |was.ring| && view == was.(ring := Turned(was.ring, k))
      requires Filed(current) && current.dartPort == was.ring[k] && Filed(root) && root.dartPort == was.ring[0]
      modifies this`view, activeReaders, activeReaders.cells
      ensures Wired() && activeReaders.cells == old(activeReaders.cells) && view == was.(ring := Turned(was.ring, k + 1))
      ensures if k + 1 == |was.ring| then next == root && view == was
              else next != root && Filed(next) && next.dartPort == was.ring[k + 1]
    {
      assert was.ring[k] in was.ring;
      assert current.IsReady();
      TurnStep(was.ring, k);
      RotateReaders();
      next := FirstReader();
    }

    /** The debug self-check: the ready entries counted along the ring and those
        counted in the map cancel out. */
    method SelfCheck() returns (readyCount: int)
      requires Valid()
      modifies this`view, activeReaders, activeReaders.cells
      ensures Valid() && view == old(view) && activeReaders.cells == old(activeReaders.cells)
      ensures readyCount == 0
    {
      readyCount := CountRing();
      var order := Enumerate(tokensMap.Keys);
      ReadyCount(view, order);
      for i := 0 to |order|
        invariant readyCount == ReadyFrom(view, order, i)
        modifies {}
      {
        EnumeratesAt(order, tokensMap.Keys, i);
        if tokensMap[order[i]].IsReady() {
          readyCount := readyCount - 1;
        }
      }
    }

    /** What the object may write to. */
    ghost function Footprint(): set<object>
      reads this, activeReaders
    {
      {this, activeReaders} + activeReaders.cells + repr
    }
  }

  // ---- Runs.

  /** The source asserts that no port is given back more tokens than its quota. */
  ghost predicate InQuota(s: Shared, op: Op) {
    op.Return? && op.port in s.ports && !s.disableTokens ==> s.ports[op.port].tokens + op.count <= SHARED_QUOTA
  }

  ghost predicate RunInQuota(s: Shared, ops: seq<Op>)
    requires s.Coherent() && RunAllowed(s, ops)
    decreases |ops|
  {
    ApplyCoherent(s, if ops == [] then Notify else ops[0]);
    ops == [] || (InQuota(s, ops[0]) && RunInQuota(Apply(s, ops[0]), ops[1..]))
  }

  lemma RunOn(s: Shared, ops: seq<Op>)
    requires ops != [] && s.Coherent() && RunAllowed(s, ops) && RunInQuota(s, ops)
    ensures Allowed(s, ops[0]) && InQuota(s, ops[0])
    ensures var s' := Apply(s, ops[0]);
            && s'.Coherent() && RunAllowed(s', ops[1..]) && RunInQuota(s', ops[1..])
            && Run(s', ops[1..]) == Run(s, ops)
  {
    ApplyCoherent(s, ops[0]);
    hide Apply;
  }

  /** Performs one operation; the result are the ports to which an event is posted. */
  method Perform(d: DescriptorInfoMultiple, op: Op) returns (ports: set<Port>)
    requires d.Valid() && Allowed(d.view, op) && InQuota(d.view, op)
    modifies d.Footprint()
    ensures d.Valid() && d.view == Apply(old(d.view), op) && fresh(d.Footprint() - old(d.Footprint()))
    ensures op.Notify? ==> ports == {old(d.view).NextNotify().1}
    ensures op.Broadcast? ==> ports == old(d.view).ports.Keys
    ensures !op.Notify? && !op.Broadcast? ==> ports == {}
  {
    ports := {};
    match op
    case SetMask(p, reading) => d.SetPortAndMask(p, if reading then {InEvent} else {});
    case Remove(p) => d.RemovePort(p);
    case Return(p, count) => d.ReturnTokens(p, count);
    case Broadcast =>
      var posted := d.NotifyAllDartPorts();
      EnumeratesExactly(posted, old(d.view).ports.Keys);
      ports := set p | p in posted;
    case Notify =>
      var port := d.NextNotifyDartPort();
      ports := {port};
  }

  /** Whatever is done to a descriptor, its map and its ring keep agreeing, and hold what the
      run of the same operations on values ends with. */
  method PerformAll(d: DescriptorInfoMultiple, ops: seq<Op>)
    requires d.Valid() && RunAllowed(d.view, ops) && RunInQuota(d.view, ops)
    modifies d.Footprint()
    ensures d.Valid() && d.view == Run(old(d.view), ops) && fresh(d.Footprint() - old(d.Footprint()))
    decreases |ops|
  {
    if ops != [] {
      RunOn(d.view, ops);
      hide Apply, Run, RunAllowed, RunInQuota;
      var _ := Perform(d, ops[0]);
      PerformAll(d, ops[1..]);
    }
  }

  /** A new descriptor after any run. */
  method PerformFromNew(fd: nat, disableTokens: bool, ops: seq<Op>) returns (d: DescriptorInfoMultiple)
    requires RunAllowed(NewShared(disableTokens), ops) && RunInQuota(NewShared(disableTokens), ops)
    ensures d.Valid() && d.view == Run(NewShared(disableTokens), ops)
  {
    d := new DescriptorInfoMultiple(fd, disableTokens);
    PerformAll(d, ops);
  }
}
