/** The descriptor objects of the event loop: each owned by its entry, none sharing anything
    with another, and together standing for the descriptors the loop's steps are told over. */
module DescriptorTable {
  import opened Descriptors
  import opened DescriptorInfo
  import opened EventLoop

  /** What is done to a descriptor. */
  datatype Action =
    | Ask(port: Port, mask: Mask)
    | Leave(port: Port)
    | GiveBack(port: Port, count: nat)
    | TellAll
    | TellNext

  /** What the source asserts when it does that. */
  ghost predicate CanAct(d: Descriptor, a: Action) {
    && (d.Many? ==> d.many.Coherent())
    && match a
       case Ask(port, mask) =>
         if d.One? then d.one.port == NO_PORT || d.one.port == port else mask == {InEvent} || mask == {}
       case Leave(port) => d.One? ==> d.one.port == NO_PORT || d.one.port == port
       case GiveBack(port, count) => d.Knows(port) && d.Tokens(port) + count <= d.Quota()
       case TellAll => true
       case TellNext => true
  }

  ghost function Act(d: Descriptor, a: Action): Descriptor
    requires CanAct(d, a)
  {
    match a
    case Ask(port, mask) => d.SetPortAndMask(port, mask)
    case Leave(port) => d.RemovePort(port)
    case GiveBack(port, count) => d.ReturnTokens(port, count)
    case TellAll => d.NotifyAll()
    case TellNext => d.NextNotify().0
  }

  /** The ports to which that posts an event. */
  ghost function Posted(d: Descriptor, a: Action): set<Port>
    requires CanAct(d, a)
  {
    if a.TellAll? then d.Listeners() else if a.TellNext? then {d.NextNotify().1} else {}
  }

  /** A single descriptor, of which `owned` holds all there is, is the one of the value. */
  ghost predicate IsOne(d: DescriptorInfoSingle, owned: set<object>, i: Info)
    reads owned
  {
    d in owned && i == Info(d.fd, One(d.View()))
  }

  /** The same of a shared one, with its map and its ring. */
  ghost predicate IsMany(d: DescriptorInfoMultiple, owned: set<object>, i: Info)
    reads owned
  {
    && d in owned && d.activeReaders in owned && d.Footprint() <= owned
    && (forall k :: 0 <= k < |d.activeReaders.nodes| ==> d.activeReaders.nodes[k] in owned)
    && d.Valid() && i == Info(d.fd, Many(d.view))
  }

  method ActOnOne(d: DescriptorInfoSingle, ghost owned: set<object>, ghost i: Info, a: Action) returns (ports: set<Port>)
    requires IsOne(d, owned, i) && CanAct(i.desc, a)
    modifies d
    ensures IsOne(d, owned, Info(i.fd, Act(i.desc, a))) && ports == Posted(i.desc, a)
  {
    ports := {};
    match a
    case Ask(p, mask) => d.SetPortAndMask(p, mask);
    case Leave(p) => d.RemovePort(p);
    case GiveBack(p, count) => d.ReturnTokens(p, count);
    case TellAll =>
      var posted := d.NotifyAllDartPorts();
      ports := set p | p in posted;
    case TellNext =>
      var port := d.NextNotifyDartPort();
      ports := {port};
  }

  /** The operation on a shared descriptor. */
  function OpOf(a: Action): Op {
    match a
    case Ask(p, mask) => SetMask(p, mask == {InEvent})
    case Leave(p) => Remove(p)
    case GiveBack(p, count) => Return(p, count)
    case TellAll => Broadcast
    case TellNext => Notify
  }

  method ActOnMany(d: DescriptorInfoMultiple, ghost owned: set<object>, ghost i: Info, a: Action)
    returns (ports: set<Port>, ghost owned': set<object>)
    requires IsMany(d, owned, i) && CanAct(i.desc, a)
    modifies owned
    ensures IsMany(d, owned', Info(i.fd, Act(i.desc, a))) && ports == Posted(i.desc, a)
    ensures owned <= owned' && fresh(owned' - owned)
  {
    ports := Perform(d, OpOf(a));
    owned' := owned + d.Footprint();
  }

  ghost predicate Apart(owns: map<Ptr, set<object>>) {
    forall p, q :: p in owns && q in owns && p != q ==> owns[p] !! owns[q]
  }

  /** The entries of a table, other than one, stand for their values. */
  ghost predicate OthersOk(singles: map<Ptr, DescriptorInfoSingle>, shared: map<Ptr, DescriptorInfoMultiple>,
                           owns: map<Ptr, set<object>>, heap: map<Ptr, Info>, repr: set<object>, ptr: Ptr)
    reads repr
  {
    && (forall p :: p in owns ==> owns[p] <= repr)
    && (forall p :: p in singles && p != ptr ==> p in owns && p in heap && IsOne(singles[p], owns[p], heap[p]))
    && (forall p :: p in shared && p != ptr ==> p in owns && p in heap && IsMany(shared[p], owns[p], heap[p]))
  }

  /** Acting on one entry leaves the others alone. */
  method ActAmongOnes(d: DescriptorInfoSingle, ghost i: Info, a: Action, ghost ptr: Ptr,
                      ghost singles: map<Ptr, DescriptorInfoSingle>, ghost shared: map<Ptr, DescriptorInfoMultiple>,
                      ghost owns: map<Ptr, set<object>>, ghost heap: map<Ptr, Info>, ghost repr: set<object>) returns (ports: set<Port>)
    requires OthersOk(singles, shared, owns, heap, repr, ptr) && Apart(owns) && ptr in owns
    requires IsOne(d, owns[ptr], i) && CanAct(i.desc, a)
    modifies d
    ensures OthersOk(singles, shared, owns, heap, repr, ptr)
    ensures IsOne(d, owns[ptr], Info(i.fd, Act(i.desc, a))) && ports == Posted(i.desc, a)
  {
    assert d in owns[ptr];
    hide IsOne, IsMany, Act, CanAct, Posted;
    ports := ActOnOne(d, owns[ptr], i, a);
    forall p | p in owns && p != ptr ensures d !in owns[p] {
    }
  }

  method ActAmongMany(d: DescriptorInfoMultiple, ghost i: Info, a: Action, ghost ptr: Ptr,
                      ghost singles: map<Ptr, DescriptorInfoSingle>, ghost shared: map<Ptr, DescriptorInfoMultiple>,
                      ghost owns: map<Ptr, set<object>>, ghost heap: map<Ptr, Info>, ghost repr: set<object>)
    returns (ports: set<Port>, ghost owned: set<object>)
    requires OthersOk(singles, shared, owns, heap, repr, ptr) && Apart(owns) && ptr in owns
    requires IsMany(d, owns[ptr], i) && CanAct(i.desc, a)
    modifies owns[ptr]
    ensures OthersOk(singles, shared, owns, heap, repr, ptr)
    ensures IsMany(d, owned, Info(i.fd, Act(i.desc, a))) && ports == Posted(i.desc, a)
    ensures fresh(owned - owns[ptr]) && (forall p :: p in owns && p != ptr ==> owns[p] !! owned)
  {
    hide IsOne, IsMany, Act, CanAct, Posted;
    ports, owned := ActOnMany(d, owns[ptr], i, a);
    forall p | p in owns && p != ptr ensures owns[p] !! owns[ptr] {
    }
  }

  /** Deleting a shared descriptor frees all its ports first. */
  method EmptyAmongMany(d: DescriptorInfoMultiple, ghost i: Info, ghost ptr: Ptr,
                        ghost singles: map<Ptr, DescriptorInfoSingle>, ghost shared: map<Ptr, DescriptorInfoMultiple>,
                        ghost owns: map<Ptr, set<object>>, ghost heap: map<Ptr, Info>, ghost repr: set<object>)
    requires OthersOk(singles, shared, owns, heap, repr, ptr) && Apart(owns) && ptr in owns
    requires IsMany(d, owns[ptr], i)
    modifies owns[ptr]
    ensures OthersOk(singles, shared, owns, heap, repr, ptr) && d.view.ring == [] && d.view.ports == map[]
  {
    var _, _, _ := d.RemoveAllPorts();
    hide IsOne, IsMany;
    forall p | p in owns && p != ptr ensures owns[p] !! owns[ptr] {
    }
  }

  ghost predicate AllOk(singles: map<Ptr, DescriptorInfoSingle>, shared: map<Ptr, DescriptorInfoMultiple>,
                        owns: map<Ptr, set<object>>, heap: map<Ptr, Info>, repr: set<object>)
    reads repr
  {
    && (forall p :: p in owns ==> owns[p] <= repr)
    && (forall p :: p in singles ==> p in owns && p in heap && IsOne(singles[p], owns[p], heap[p]))
    && (forall p :: p in shared ==> p in owns && p in heap && IsMany(shared[p], owns[p], heap[p]))
  }

  ghost predicate Indexed(singles: map<Ptr, DescriptorInfoSingle>, shared: map<Ptr, DescriptorInfoMultiple>,
                          owns: map<Ptr, set<object>>, heap: map<Ptr, Info>)
  {
    heap.Keys == owns.Keys == singles.Keys + shared.Keys && singles.Keys !! shared.Keys && Apart(owns)
  }

  /** Taking one entry out of sight. */
  lemma AsideOf(singles: map<Ptr, DescriptorInfoSingle>, shared: map<Ptr, DescriptorInfoMultiple>,
                owns: map<Ptr, set<object>>, heap: map<Ptr, Info>, repr: set<object>, ptr: Ptr)
    requires AllOk(singles, shared, owns, heap, repr) && Indexed(singles, shared, owns, heap) && ptr in heap
    ensures OthersOk(singles, shared, owns, heap, repr, ptr) && Apart(owns) && ptr in owns && owns[ptr] <= repr
    ensures if ptr in singles then singles[ptr] in repr && IsOne(singles[ptr], owns[ptr], heap[ptr])
            else ptr in shared && IsMany(shared[ptr], owns[ptr], heap[ptr])
  {
    assert ptr in singles ==> IsOne(singles[ptr], owns[ptr], heap[ptr]);
  }

  /** And putting it back with another value. */
  lemma BackIn(singles: map<Ptr, DescriptorInfoSingle>, shared: map<Ptr, DescriptorInfoMultiple>,
               owns: map<Ptr, set<object>>, heap: map<Ptr, Info>, repr: set<object>,
               ptr: Ptr, owned: set<object>, i: Info)
    requires OthersOk(singles, shared, owns, heap, repr, ptr) && Indexed(singles, shared, owns, heap) && ptr in heap
    requires forall p :: p in owns && p != ptr ==> owns[p] !! owned
    requires ptr in singles ==> IsOne(singles[ptr], owned, i)
    requires ptr in shared ==> IsMany(shared[ptr], owned, i)
    ensures AllOk(singles, shared, owns[ptr := owned], heap[ptr := i], repr + owned)
    ensures Indexed(singles, shared, owns[ptr := owned], heap[ptr := i])
  {
    hide IsOne, IsMany;
  }

  lemma OneMore(singles: map<Ptr, DescriptorInfoSingle>, shared: map<Ptr, DescriptorInfoMultiple>,
                owns: map<Ptr, set<object>>, heap: map<Ptr, Info>, repr: set<object>,
                ptr: Ptr, d: DescriptorInfoSingle, owned: set<object>, i: Info)
    requires AllOk(singles, shared, owns, heap, repr) && Indexed(singles, shared, owns, heap) && ptr !in heap
    requires IsOne(d, owned, i) && owned !! repr
    ensures AllOk(singles[ptr := d], shared, owns[ptr := owned], heap[ptr := i], repr + owned)
    ensures Indexed(singles[ptr := d], shared, owns[ptr := owned], heap[ptr := i])
  {
    hide IsOne, IsMany;
  }

  lemma OneMoreShared(singles: map<Ptr, DescriptorInfoSingle>, shared: map<Ptr, DescriptorInfoMultiple>,
                      owns: map<Ptr, set<object>>, heap: map<Ptr, Info>, repr: set<object>,
                      ptr: Ptr, d: DescriptorInfoMultiple, owned: set<object>, i: Info)
    requires AllOk(singles, shared, owns, heap, repr) && Indexed(singles, shared, owns, heap) && ptr !in heap
    requires IsMany(d, owned, i) && owned !! repr
    ensures AllOk(singles, shared[ptr := d], owns[ptr := owned], heap[ptr := i], repr + owned)
    ensures Indexed(singles, shared[ptr := d], owns[ptr := owned], heap[ptr := i])
  {
    hide IsOne, IsMany;
  }

  lemma OneLess(singles: map<Ptr, DescriptorInfoSingle>, shared: map<Ptr, DescriptorInfoMultiple>,
                owns: map<Ptr, set<object>>, heap: map<Ptr, Info>, repr: set<object>, ptr: Ptr)
    requires OthersOk(singles, shared, owns, heap, repr, ptr) && Indexed(singles, shared, owns, heap)
    ensures AllOk(singles - {ptr}, shared - {ptr}, owns - {ptr}, heap - {ptr}, repr)
    ensures Indexed(singles - {ptr}, shared - {ptr}, owns - {ptr}, heap - {ptr})
  {
    hide IsOne, IsMany;
  }

  class Table {
    var singles: map<Ptr, DescriptorInfoSingle>
    var shared: map<Ptr, DescriptorInfoMultiple>
    /** The descriptors as values. */
    ghost var heap: map<Ptr, Info>
    /** The objects of each entry, and of all. */
    ghost var owns: map<Ptr, set<object>>
    ghost var repr: set<object>

    ghost predicate Valid()
      reads this, repr
    {
      this !in repr && Indexed(singles, shared, owns, heap) && AllOk(singles, shared, owns, heap, repr)
    }

    constructor ()
      ensures Valid() && heap == map[] && repr == {}
    {
      singles, shared, heap, owns, repr := map[], map[], map[], map[], {};
    }

    /** Takes over what an entry has become. */
    ghost method Settle(ptr: Ptr, owned: set<object>, i: Info)
      requires this !in repr && this !in owned && Indexed(singles, shared, owns, heap) && ptr in heap
      requires OthersOk(singles, shared, owns, heap, repr, ptr)
      requires forall p :: p in owns && p != ptr ==> owns[p] !! owned
      requires ptr in singles ==> IsOne(singles[ptr], owned, i)
      requires ptr in shared ==> IsMany(shared[ptr], owned, i)
      modifies this`heap, this`owns, this`repr
      ensures Valid() && heap == old(heap)[ptr := i] && repr == old(repr) + owned
    {
      hide IsOne, IsMany, OthersOk, AllOk, Indexed;
      BackIn(singles, shared, owns, heap, repr, ptr, owned, i);
      heap, owns, repr := heap[ptr := i], owns[ptr := owned], repr + owned;
    }

    method OnSingle(ptr: Ptr, a: Action) returns (ports: set<Port>)
      requires Valid() && ptr in singles && ptr in heap && CanAct(heap[ptr].desc, a)
      modifies this`heap, this`owns, this`repr, repr
      ensures Valid() && heap == old(heap)[ptr := Info(old(heap)[ptr].fd, Act(old(heap)[ptr].desc, a))]
      ensures ports == Posted(old(heap)[ptr].desc, a)
      ensures fresh(repr - old(repr))
    {
      hide Act, CanAct, Posted, IsOne, IsMany, OthersOk, AllOk;
      AsideOf(singles, shared, owns, heap, repr, ptr);
      ghost var i := heap[ptr];
      ports := ActAmongOnes(singles[ptr], i, a, ptr, singles, shared, owns, heap, repr);
      Settle(ptr, owns[ptr], Info(i.fd, Act(i.desc, a)));
    }

    method OnShared(ptr: Ptr, a: Action) returns (ports: set<Port>)
      requires Valid() && ptr in shared && ptr in heap && CanAct(heap[ptr].desc, a)
      modifies this`heap, this`owns, this`repr, repr
      ensures Valid() && heap == old(heap)[ptr := Info(old(heap)[ptr].fd, Act(old(heap)[ptr].desc, a))]
      ensures ports == Posted(old(heap)[ptr].desc, a)
      ensures fresh(repr - old(repr))
    {
      hide Act, CanAct, Posted, IsOne, IsMany, OthersOk, AllOk;
      AsideOf(singles, shared, owns, heap, repr, ptr);
      ghost var i, owned := heap[ptr], owns[ptr];
      ports, owned := ActAmongMany(shared[ptr], i, a, ptr, singles, shared, owns, heap, repr);
      Settle(ptr, owned, Info(i.fd, Act(i.desc, a)));
    }

    /** Does something to one descriptor object. */
    method Perform(ptr: Ptr, a: Action) returns (ports: set<Port>)
      requires Valid() && ptr in heap && CanAct(heap[ptr].desc, a)
      modifies this`heap, this`owns, this`repr, repr
      ensures Valid() && heap == old(heap)[ptr := Info(old(heap)[ptr].fd, Act(old(heap)[ptr].desc, a))]
      ensures ports == Posted(old(heap)[ptr].desc, a)
      ensures fresh(repr - old(repr))
    {
      hide Act, CanAct, Posted, AllOk;
      if ptr in singles {
        ports := OnSingle(ptr, a);
      } else {
        ports := OnShared(ptr, a);
      }
    }

    lemma AllCoherent(ptr: Ptr)
      requires Valid() && ptr in heap
      ensures heap[ptr].desc.Many? ==> heap[ptr].desc.many.Coherent()
    {
      assert ptr in singles ==> IsOne(singles[ptr], owns[ptr], heap[ptr]);
    }

    method GetMask(ptr: Ptr) returns (m: Mask)
      requires Valid() && ptr in heap
      ensures m == heap[ptr].desc.CurrentMask()
    {
      assert ptr in singles ==> IsOne(singles[ptr], owns[ptr], heap[ptr]);
      if ptr in singles {
        m := singles[ptr].GetMask();
      } else {
        m := shared[ptr].GetMask();
      }
    }

    method IsListeningSocket(ptr: Ptr) returns (listening: bool)
      requires Valid() && ptr in heap
      ensures listening == heap[ptr].desc.IsListeningSocket()
    {
      assert ptr in singles ==> IsOne(singles[ptr], owns[ptr], heap[ptr]);
      listening := ptr in shared;
    }

    method GetFd(ptr: Ptr) returns (fd: Fd)
      requires Valid() && ptr in heap
      ensures fd == heap[ptr].fd
    {
      assert ptr in singles ==> IsOne(singles[ptr], owns[ptr], heap[ptr]);
      fd := if ptr in singles then singles[ptr].fd else shared[ptr].fd;
    }

    method Knows(ptr: Ptr, port: Port) returns (known: bool)
      requires Valid() && ptr in heap
      ensures known == heap[ptr].desc.Knows(port)
    {
      assert ptr in singles ==> IsOne(singles[ptr], owns[ptr], heap[ptr]);
      known := if ptr in singles then singles[ptr].port == port else port in shared[ptr].tokensMap;
    }

    method CreateSingle(ptr: Ptr, fd: Fd)
      requires Valid() && ptr !in heap
      modifies this
      ensures Valid() && fresh(repr - old(repr)) && heap == old(heap)[ptr := Info(fd, One(NewSingle(false)))]
    {
      hide AllOk, Indexed;
      var d := new DescriptorInfoSingle(fd, false);
      ghost var i := Info(fd, One(NewSingle(false)));
      OneMore(singles, shared, owns, heap, repr, ptr, d, {d}, i);
      singles, heap, owns, repr := singles[ptr := d], heap[ptr := i], owns[ptr := {d}], repr + {d};
    }

    method CreateShared(ptr: Ptr, fd: Fd)
      requires Valid() && ptr !in heap
      modifies this
      ensures Valid() && fresh(repr - old(repr)) && heap == old(heap)[ptr := Info(fd, Many(NewShared(false)))]
    {
      hide AllOk, Indexed;
      var d := new DescriptorInfoMultiple(fd, false);
      ghost var i, owned: set<object> := Info(fd, Many(NewShared(false))), {d, d.activeReaders};
      OneMoreShared(singles, shared, owns, heap, repr, ptr, d, owned, i);
      shared, heap, owns, repr := shared[ptr := d], heap[ptr := i], owns[ptr := owned], repr + owned;
    }

    /** Allocates a descriptor object. */
    method Create(ptr: Ptr, fd: Fd, listening: bool)
      requires Valid() && ptr !in heap
      modifies this
      ensures Valid() && fresh(repr - old(repr))
      ensures heap == old(heap)[ptr := Info(fd, if listening then Many(NewShared(false)) else One(NewSingle(false)))]
    {
      if listening {
        CreateShared(ptr, fd);
      } else {
        CreateSingle(ptr, fd);
      }
    }

    /** Takes all ports off a shared descriptor. */
    method RemoveAllPorts(ptr: Ptr)
      requires Valid() && ptr in shared
      modifies repr
      ensures this !in repr && Indexed(singles, shared, owns, heap) && OthersOk(singles, shared, owns, heap, repr, ptr)
      ensures shared[ptr].view.ports == map[] && shared[ptr].view.ring == []
    {
      hide AllOk, IsOne, IsMany, OthersOk;
      AsideOf(singles, shared, owns, heap, repr, ptr);
      EmptyAmongMany(shared[ptr], heap[ptr], ptr, singles, shared, owns, heap, repr);
    }

    /** Drops an entry. */
    method Forget(ptr: Ptr)
      requires this !in repr && Indexed(singles, shared, owns, heap) && OthersOk(singles, shared, owns, heap, repr, ptr)
      modifies this`singles, this`shared, this`heap, this`owns
      ensures Valid() && heap == old(heap) - {ptr}
    {
      hide AllOk, IsOne, IsMany, OthersOk, Indexed;
      OneLess(singles, shared, owns, heap, repr, ptr);
      singles, shared, heap, owns := singles - {ptr}, shared - {ptr}, heap - {ptr}, owns - {ptr};
    }

    /** Deletes a descriptor object; a shared one gives up all its ports first. */
    method Free(ptr: Ptr)
      requires Valid() && ptr in heap
      modifies this`singles, this`shared, this`heap, this`owns, repr
      ensures Valid() && heap == old(heap) - {ptr}
    {
      hide AllOk, IsOne, IsMany, OthersOk, Indexed;
      if ptr in shared {
        RemoveAllPorts(ptr);
      } else {
        AsideOf(singles, shared, owns, heap, repr, ptr);
      }
      Forget(ptr);
    }
  }
}
