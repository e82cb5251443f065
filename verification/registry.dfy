/** The client registry of client.c: one shard list per worker thread, all
    over one heap of client records.  A lookup scans the shards in order,
    `client_add` pushes a new head, `net_accept` decides on an incoming
    connection, and the sweeper `clients_check_timeout` retires stale entries. */
module Registry {
  import opened Base
  import opened AtomicList

  /** net_clients_t: the shards from `lists` to `end`, over one heap, the
      records mem_free_client has handed back, and the records whose player_t
      has been passed to free() since it was bound to them.  A freed record
      keeps its contents in the heap, its player pointer included: the sweep
      as written can leave one on a list, and a later sweep then reads and
      frees it, and its player, again. */
  datatype Clients = Clients(heap: Heap, shards: seq<Shard>, freed: set<NodeId>, playersFreed: set<NodeId>)

  /** Every shard is a NULL-terminated list. */
  predicate WellLinked(c: Clients) {
    forall k :: 0 <= k < |c.shards| ==> Chain(c.heap, c.shards[k].head).Some?
  }

  /** The nodes of shard k, head first. */
  function ChainOf(c: Clients, k: nat): (ns: seq<NodeId>)
    requires WellLinked(c) && k < |c.shards|
    ensures forall i :: 0 <= i < |ns| ==> ns[i] in c.heap
    ensures |ns| == 0 <==> c.shards[k].head.None?
    ensures |ns| > 0 ==> c.shards[k].head == Some(ns[0])
  {
    Chain(c.heap, c.shards[k].head).value
  }

  /** No node belongs to two shards: each node is pushed onto one list only. */
  predicate Disjoint(c: Clients)
    requires WellLinked(c)
  {
    forall k1, k2, i, j ::
      (0 <= k1 < |c.shards| && 0 <= k2 < |c.shards| && k1 != k2 &&
       0 <= i < |ChainOf(c, k1)| && 0 <= j < |ChainOf(c, k2)|) ==> ChainOf(c, k1)[i] != ChainOf(c, k2)[j]
  }

  /** No record still on a list has been handed back to the allocator. */
  predicate NoneListedFreed(c: Clients)
    requires WellLinked(c)
  {
    forall k, j :: 0 <= k < |c.shards| && 0 <= j < |ChainOf(c, k)| ==> ChainOf(c, k)[j] !in c.freed
  }

  // ---------------------------------------------------------------------
  // client_find

  /** What client_find can end in: a node, NULL, or a NULL dereference. */
  datatype Lookup = Found(node: NodeId) | NotFound | NullDeref

  /** The position of the first node in ns holding the address. */
  function FirstWithIp(h: Heap, ns: seq<NodeId>, ip: u32): (r: Option<nat>)
    requires forall i :: 0 <= i < |ns| ==> ns[i] in h
    ensures r.Some? ==> r.value < |ns| && h[ns[r.value]].ip == ip
    ensures r.Some? ==> forall j :: 0 <= j < r.value ==> h[ns[j]].ip != ip
    ensures r.None? ==> forall j :: 0 <= j < |ns| ==> h[ns[j]].ip != ip
    decreases |ns|
  {
    if |ns| == 0 then None
    else if h[ns[0]].ip == ip then Some(0)
    else
      match FirstWithIp(h, ns[1..], ip)
      case None => None
      case Some(j) => Some(j + 1)
  }

  /** Node j of shard k holds the address and is visible: it is a tail node,
      or the head while the head is live. */
  predicate LiveMatch(c: Clients, k: int, j: int, ip: u32)
    requires WellLinked(c)
  {
    && 0 <= k < |c.shards|
    && 0 <= j < |ChainOf(c, k)|
    && c.heap[ChainOf(c, k)[j]].ip == ip
    && (j > 0 || c.shards[k].headValid)
  }

  /** client_find as written, from shard k on: an empty shard's head is
      dereferenced, and a head holding the address ends the whole search. */
  function FindFrom(c: Clients, k: nat, ip: u32): (r: Lookup)
    requires WellLinked(c) && k <= |c.shards|
    ensures r.Found? ==> r.node in c.heap && c.heap[r.node].ip == ip
    decreases |c.shards| - k
  {
    if k == |c.shards| then NotFound
    else
      var ns := ChainOf(c, k);
      if |ns| == 0 then NullDeref
      else if c.heap[ns[0]].ip == ip then
        (if c.shards[k].headValid then Found(ns[0]) else NotFound)
      else
        match FirstWithIp(c.heap, ns[1..], ip)
        case Some(j) => Found(ns[1..][j])
        case None => FindFrom(c, k + 1, ip)
  }

  /** client_find as written. */
  function ClientFind(c: Clients, ip: u32): (r: Lookup)
    requires WellLinked(c)
    ensures r.Found? ==> r.node in c.heap && c.heap[r.node].ip == ip
  {
    FindFrom(c, 0, ip)
  }

  /** The first visible match inside shard k. */
  function FirstLiveIn(c: Clients, k: nat, ip: u32): (r: Option<nat>)
    requires WellLinked(c) && k < |c.shards|
    ensures r.Some? ==> LiveMatch(c, k, r.value, ip)
    ensures r.Some? ==> forall j :: 0 <= j < r.value ==> !LiveMatch(c, k, j, ip)
    ensures r.None? ==> forall j :: !LiveMatch(c, k, j, ip)
  {
    var ns := ChainOf(c, k);
    if |ns| == 0 then None
    else if c.heap[ns[0]].ip == ip && c.shards[k].headValid then Some(0)
    else
      match FirstWithIp(c.heap, ns[1..], ip)
      case None => None
      case Some(j) => Some(j + 1)
  }

  /** The first visible match in shard order, from shard k on. */
  function FirstLive(c: Clients, k: nat, ip: u32): (r: Option<(nat, nat)>)
    requires WellLinked(c) && k <= |c.shards|
    ensures r.Some? ==> k <= r.value.0 && LiveMatch(c, r.value.0, r.value.1, ip)
    ensures r.Some? ==> forall k', j :: k <= k' < r.value.0 ==> !LiveMatch(c, k', j, ip)
    ensures r.Some? ==> forall j :: 0 <= j < r.value.1 ==> !LiveMatch(c, r.value.0, j, ip)
    ensures r.None? ==> forall k', j :: k <= k' ==> !LiveMatch(c, k', j, ip)
    decreases |c.shards| - k
  {
    if k == |c.shards| then None
    else
      match FirstLiveIn(c, k, ip)
      case Some(j) => Some((k, j))
      case None => FirstLive(c, k + 1, ip)
  }

  /** client_find as evidently intended: empty shards and a head that is no
      longer live are stepped over, and the scan goes on to the rest. */
  function ClientFindChecked(c: Clients, ip: u32): (r: Lookup)
    requires WellLinked(c)
    ensures !r.NullDeref?
    ensures r.NotFound? <==> forall k, j :: !LiveMatch(c, k, j, ip)
    ensures r.Found? ==>
      exists k, j :: (&& LiveMatch(c, k, j, ip) && ChainOf(c, k)[j] == r.node
                      && (forall k', j' :: 0 <= k' < k ==> !LiveMatch(c, k', j', ip))
                      && (forall j' :: 0 <= j' < j ==> !LiveMatch(c, k, j', ip)))
  {
    match FirstLive(c, 0, ip)
    case None => NotFound
    case Some((k, j)) => Found(ChainOf(c, k)[j])
  }

  /** Shard k is scanned past: it has a head, and none of its nodes holds
      the address. */
  predicate PassedOver(c: Clients, k: nat, ip: u32)
    requires WellLinked(c) && k < |c.shards|
  {
    |ChainOf(c, k)| > 0 && forall j :: 0 <= j < |ChainOf(c, k)| ==> c.heap[ChainOf(c, k)[j]].ip != ip
  }

  /** A scan starting at shard k0 gets as far as shard k. */
  predicate Reaches(c: Clients, k0: nat, k: nat, ip: u32)
    requires WellLinked(c)
  {
    k0 <= k < |c.shards| && forall k' :: k0 <= k' < k ==> PassedOver(c, k', ip)
  }

  /** Node j is the first node of shard k holding the address. */
  predicate FirstMatch(c: Clients, k: nat, j: nat, ip: u32)
    requires WellLinked(c) && k < |c.shards|
  {
    && j < |ChainOf(c, k)| && c.heap[ChainOf(c, k)[j]].ip == ip
    && forall j' :: 0 <= j' < j ==> c.heap[ChainOf(c, k)[j']].ip != ip
  }

  /** What a scan from shard k0 that yields r means in terms of the shards:
      the three outcomes of client_find, each with its cause. */
  ghost predicate ScanOutcome(c: Clients, k0: nat, ip: u32, r: Lookup)
    requires WellLinked(c) && k0 <= |c.shards|
  {
    NullOutcome(c, k0, ip, r) && FoundOutcome(c, k0, ip, r) && NotFoundOutcome(c, k0, ip, r)
  }

  /** The scan dereferences NULL exactly when it reaches an empty shard. */
  ghost predicate NullOutcome(c: Clients, k0: nat, ip: u32, r: Lookup)
    requires WellLinked(c) && k0 <= |c.shards|
  {
    r.NullDeref? <==> exists k: nat :: Reaches(c, k0, k, ip) && |ChainOf(c, k)| == 0
  }

  /** A node found is the first match of a shard the scan reaches, and
      visible unless it is not the head. */
  ghost predicate FoundOutcome(c: Clients, k0: nat, ip: u32, r: Lookup)
    requires WellLinked(c) && k0 <= |c.shards|
  {
    r.Found? ==>
      exists k: nat, j: nat :: Reaches(c, k0, k, ip) && FirstMatch(c, k, j, ip) && (j > 0 || c.shards[k].headValid)
        && r.node == ChainOf(c, k)[j]
  }

  /** The scan finds nothing exactly when every shard is passed over, or a
      head no longer live is the first match of a shard it reaches. */
  ghost predicate NotFoundOutcome(c: Clients, k0: nat, ip: u32, r: Lookup)
    requires WellLinked(c) && k0 <= |c.shards|
  {
    r.NotFound? <==>
      (forall k :: k0 <= k < |c.shards| ==> PassedOver(c, k, ip)) ||
      (exists k: nat :: Reaches(c, k0, k, ip) && FirstMatch(c, k, 0, ip) && !c.shards[k].headValid)
  }

  lemma {:induction false} FindFromScans(c: Clients, k0: nat, ip: u32)
    requires WellLinked(c) && k0 <= |c.shards|
    ensures FindFrom(c, k0, ip).NullDeref? <==> exists k: nat :: Reaches(c, k0, k, ip) && |ChainOf(c, k)| == 0
    ensures FindFrom(c, k0, ip).Found? ==>
      exists k: nat, j: nat :: Reaches(c, k0, k, ip) && FirstMatch(c, k, j, ip) && (j > 0 || c.shards[k].headValid)
        && FindFrom(c, k0, ip).node == ChainOf(c, k)[j]
    ensures FindFrom(c, k0, ip).NotFound? <==>
      (forall k :: k0 <= k < |c.shards| ==> PassedOver(c, k, ip)) ||
      (exists k: nat :: Reaches(c, k0, k, ip) && FirstMatch(c, k, 0, ip) && !c.shards[k].headValid)
    decreases |c.shards| - k0
  {
    FindFromOutcome(c, k0, ip);
  }

  lemma {:induction false} FindFromOutcome(c: Clients, k0: nat, ip: u32)
    requires WellLinked(c) && k0 <= |c.shards|
    ensures ScanOutcome(c, k0, ip, FindFrom(c, k0, ip))
    decreases |c.shards| - k0
  {
    if k0 < |c.shards| {
      var ns := ChainOf(c, k0);
      if |ns| == 0 || c.heap[ns[0]].ip == ip || FirstWithIp(c.heap, ns[1..], ip).Some? {
        ScanStopsAt(c, k0, ip);
      } else {
        FindFromOutcome(c, k0 + 1, ip);
        ScanPassesOver(c, k0, ip, FindFrom(c, k0 + 1, ip));
      }
    }
  }

  /** A shard that is empty or holds the address ends the scan there. */
  lemma ScanStopsAt(c: Clients, k0: nat, ip: u32)
    requires WellLinked(c) && k0 < |c.shards|
    requires |ChainOf(c, k0)| == 0 || c.heap[ChainOf(c, k0)[0]].ip == ip
      || FirstWithIp(c.heap, ChainOf(c, k0)[1..], ip).Some?
    ensures ScanOutcome(c, k0, ip, FindFrom(c, k0, ip))
  {
    var ns := ChainOf(c, k0);
    assert Reaches(c, k0, k0, ip);
    assert !PassedOver(c, k0, ip) by {
      if |ns| > 0 && c.heap[ns[0]].ip != ip {
        var j := FirstWithIp(c.heap, ns[1..], ip).value;
        assert ns[j + 1] == ns[1..][j];
      }
    }
    assert forall k: nat :: Reaches(c, k0, k, ip) ==> k == k0;
    if |ns| == 0 {
    } else if c.heap[ns[0]].ip == ip {
      assert FirstMatch(c, k0, 0, ip);
    } else {
      var j := FirstWithIp(c.heap, ns[1..], ip).value;
      assert FirstMatch(c, k0, j + 1, ip) by {
        forall j' | 0 <= j' < j + 1 ensures c.heap[ns[j']].ip != ip {
          if j' > 0 { assert ns[j'] == ns[1..][j' - 1]; }
        }
      }
      assert forall j': nat :: FirstMatch(c, k0, j', ip) ==> j' == j + 1;
    }
  }

  /** A shard with a head and no node holding the address passes the scan,
      and its meaning, on to the next shard. */
  lemma ScanPassesOver(c: Clients, k0: nat, ip: u32, r: Lookup)
    requires WellLinked(c) && k0 < |c.shards|
    requires |ChainOf(c, k0)| > 0 && c.heap[ChainOf(c, k0)[0]].ip != ip
    requires FirstWithIp(c.heap, ChainOf(c, k0)[1..], ip).None?
    requires r == FindFrom(c, k0 + 1, ip) && ScanOutcome(c, k0 + 1, ip, r)
    ensures ScanOutcome(c, k0, ip, FindFrom(c, k0, ip))
  {
    var ns := ChainOf(c, k0);
    assert FindFrom(c, k0, ip) == r;
    assert PassedOver(c, k0, ip) by {
      forall j' | 0 <= j' < |ns| ensures c.heap[ns[j']].ip != ip {
        if j' > 0 { assert ns[j'] == ns[1..][j' - 1]; }
      }
    }
    PassedReaches(c, k0, ip);
    PassNull(c, k0, ip, r);
    PassFound(c, k0, ip, r);
    PassNotFound(c, k0, ip, r);
  }

  /** Past a shard passed over, a scan reaches what the scan from the next
      shard reaches. */
  lemma PassedReaches(c: Clients, k0: nat, ip: u32)
    requires WellLinked(c) && k0 < |c.shards| && PassedOver(c, k0, ip)
    ensures forall k: nat :: Reaches(c, k0, k, ip) <==> k == k0 || Reaches(c, k0 + 1, k, ip)
    ensures !FirstMatch(c, k0, 0, ip)
  {
  }

  lemma PassNull(c: Clients, k0: nat, ip: u32, r: Lookup)
    requires WellLinked(c) && k0 < |c.shards| && PassedOver(c, k0, ip)
    requires forall k: nat :: Reaches(c, k0, k, ip) <==> k == k0 || Reaches(c, k0 + 1, k, ip)
    requires NullOutcome(c, k0 + 1, ip, r)
    ensures NullOutcome(c, k0, ip, r)
  {
  }

  lemma PassFound(c: Clients, k0: nat, ip: u32, r: Lookup)
    requires WellLinked(c) && k0 < |c.shards| && PassedOver(c, k0, ip)
    requires forall k: nat :: Reaches(c, k0, k, ip) <==> k == k0 || Reaches(c, k0 + 1, k, ip)
    requires FoundOutcome(c, k0 + 1, ip, r)
    ensures FoundOutcome(c, k0, ip, r)
  {
  }

  lemma PassNotFound(c: Clients, k0: nat, ip: u32, r: Lookup)
    requires WellLinked(c) && k0 < |c.shards| && PassedOver(c, k0, ip)
    requires forall k: nat :: Reaches(c, k0, k, ip) <==> k == k0 || Reaches(c, k0 + 1, k, ip)
    requires !FirstMatch(c, k0, 0, ip)
    requires NotFoundOutcome(c, k0 + 1, ip, r)
    ensures NotFoundOutcome(c, k0, ip, r)
  {
  }

  /** client_find as written scans the shards in order.  It dereferences
      NULL exactly when it reaches an empty shard; it finds the first node
      holding the address in the first shard that has one, unless that node
      is a head no longer live, in which case it finds nothing; and it finds
      nothing when no node holds the address. */
  lemma ClientFindScans(c: Clients, ip: u32)
    requires WellLinked(c)
    ensures ClientFind(c, ip).NullDeref? <==> exists k: nat :: Reaches(c, 0, k, ip) && |ChainOf(c, k)| == 0
    ensures ClientFind(c, ip).Found? ==>
      exists k: nat, j: nat :: Reaches(c, 0, k, ip) && FirstMatch(c, k, j, ip) && (j > 0 || c.shards[k].headValid)
        && ClientFind(c, ip).node == ChainOf(c, k)[j]
    ensures ClientFind(c, ip).NotFound? <==>
      (forall k :: 0 <= k < |c.shards| ==> PassedOver(c, k, ip)) ||
      (exists k: nat :: Reaches(c, 0, k, ip) && FirstMatch(c, k, 0, ip) && !c.shards[k].headValid)
  {
    FindFromScans(c, 0, ip);
  }

  /** No shard is empty and no head that is no longer live holds the address. */
  predicate Tidy(c: Clients, ip: u32)
    requires WellLinked(c)
  {
    forall k :: 0 <= k < |c.shards| ==>
      |ChainOf(c, k)| > 0 && (c.heap[ChainOf(c, k)[0]].ip == ip ==> c.shards[k].headValid)
  }

  lemma {:induction false} FindFromAgrees(c: Clients, k: nat, ip: u32)
    requires WellLinked(c) && k <= |c.shards| && Tidy(c, ip)
    ensures FindFrom(c, k, ip) ==
      match FirstLive(c, k, ip)
      case None => NotFound
      case Some((k', j)) => Found(ChainOf(c, k')[j])
    decreases |c.shards| - k
  {
    if k < |c.shards| {
      FindFromAgrees(c, k + 1, ip);
    }
  }

  /** Where no shard is empty and no stale head holds the address, the lookup
      as written finds what the intended one finds. */
  lemma ClientFindAgrees(c: Clients, ip: u32)
    requires WellLinked(c) && Tidy(c, ip)
    ensures ClientFind(c, ip) == ClientFindChecked(c, ip)
  {
    FindFromAgrees(c, 0, ip);
  }

  /** An empty first shard makes every lookup dereference NULL; the intended
      lookup never does. */
  lemma ClientFindEmptyShardFaults(c: Clients, ip: u32)
    requires WellLinked(c) && |c.shards| > 0 && c.shards[0].head.None?
    ensures ClientFind(c, ip) == NullDeref
    ensures ClientFindChecked(c, ip) != NullDeref
  {
  }

  /** A first shard whose head holds the address but is no longer live hides
      every later visible entry for that address. */
  lemma ClientFindStaleHeadHides(c: Clients, ip: u32, k: nat, j: nat)
    requires WellLinked(c) && |c.shards| > 0 && c.shards[0].head.Some?
    requires c.heap[c.shards[0].head.value].ip == ip && !c.shards[0].headValid
    requires LiveMatch(c, k, j, ip)
    ensures ClientFind(c, ip) == NotFound
    ensures ClientFindChecked(c, ip).Found?
  {
  }

  // ---------------------------------------------------------------------
  // client_add

  /** client_add: a new record {ip, no player, conntime = now} becomes the
      live head of shard t.  `slot` is the address mem_alloc_client hands out
      and `now` the value of time(NULL). */
  function ClientAdd(c: Clients, t: nat, ip: u32, now: int, slot: NodeId): (r: Clients)
    requires t < |c.shards| && slot !in c.heap
    ensures r.heap.Keys == c.heap.Keys + {slot}
    ensures forall n :: n in c.heap ==> r.heap[n] == c.heap[n]
    ensures r.heap[slot] == Client(ip, now, None, c.shards[t].head)
    ensures |r.shards| == |c.shards| && r.shards[t] == Shard(Some(slot), true)
    ensures forall k :: 0 <= k < |c.shards| && k != t ==> r.shards[k] == c.shards[k]
    ensures r.freed == c.freed
  {
    var h1 := c.heap[slot := Client(ip, now, None, None)];
    var (h2, s2) := AlPush(h1, c.shards[t], slot);
    Clients(h2, c.shards[t := s2.(headValid := true)], c.freed, c.playersFreed - {slot})
  }

  /** After client_add shard t is the new node followed by its old nodes, and
      every other shard keeps its nodes. */
  lemma ClientAddChains(c: Clients, t: nat, ip: u32, now: int, slot: NodeId)
    requires WellLinked(c) && t < |c.shards| && slot !in c.heap
    ensures WellLinked(ClientAdd(c, t, ip, now, slot))
    ensures ChainOf(ClientAdd(c, t, ip, now, slot), t) == [slot] + ChainOf(c, t)
    ensures forall k :: 0 <= k < |c.shards| && k != t ==>
      ChainOf(ClientAdd(c, t, ip, now, slot), k) == ChainOf(c, k)
  {
    var r := ClientAdd(c, t, ip, now, slot);
    forall k | 0 <= k < |c.shards|
      ensures Chain(r.heap, r.shards[k].head) ==
        Some(if k == t then [slot] + ChainOf(c, k) else ChainOf(c, k))
    {
      var ns := ChainOf(c, k);
      ChainCharacterized(c.heap, c.shards[k].head, ns);
      ChainFrame(c.heap, r.heap, c.shards[k].head, ns);
      if k == t {
        assert ([slot] + ns)[1..] == ns;
        ChainCharacterized(r.heap, r.shards[k].head, [slot] + ns);
      } else {
        ChainCharacterized(r.heap, r.shards[k].head, ns);
      }
    }
  }

  /** The added address is visible to the intended lookup at once. */
  lemma ClientAddIsFound(c: Clients, t: nat, ip: u32, now: int, slot: NodeId)
    requires WellLinked(c) && t < |c.shards| && slot !in c.heap
    ensures WellLinked(ClientAdd(c, t, ip, now, slot))
    ensures ClientFindChecked(ClientAdd(c, t, ip, now, slot), ip).Found?
  {
    ClientAddChains(c, t, ip, now, slot);
    var r := ClientAdd(c, t, ip, now, slot);
    assert LiveMatch(r, t, 0, ip);
  }

  // ---------------------------------------------------------------------
  // net_accept

  /** The registry side of net_accept: the socket is kept or closed, and the
      registry after the decision; or the lookup dereferenced NULL. */
  datatype Accept = Accept(keep: bool, clients: Clients) | AcceptNullDeref

  /** The lookup of the chosen variant. */
  function Find(c: Clients, ip: u32, v: Variant): (r: Lookup)
    requires WellLinked(c)
    ensures v == Intended ==> !r.NullDeref?
    ensures r.Found? ==> r.node in c.heap && c.heap[r.node].ip == ip
  {
    if v == AsWritten then ClientFind(c, ip) else ClientFindChecked(c, ip)
  }

  /** net_accept from the point the peer address is known: a known address
      with a player keeps the socket, a known address without one has it
      closed, and an unknown address is added to the accepting thread's
      shard.  As written the lookup is client_find, whose NULL dereference
      ends the accept. */
  function NetAccept(c: Clients, thread: nat, ip: u32, now: int, slot: NodeId, v: Variant): (r: Accept)
    requires WellLinked(c) && thread < |c.shards| && slot !in c.heap
    ensures r.AcceptNullDeref? <==> Find(c, ip, v).NullDeref?
    ensures Find(c, ip, v).Found? ==>
      r.Accept? && r.clients == c && (r.keep <==> c.heap[Find(c, ip, v).node].player.Some?)
    ensures Find(c, ip, v).NotFound? ==> r == Accept(true, ClientAdd(c, thread, ip, now, slot))
  {
    match Find(c, ip, v)
    case Found(n) => Accept(c.heap[n].player.Some?, c)
    case NotFound => Accept(true, ClientAdd(c, thread, ip, now, slot))
    case NullDeref => AcceptNullDeref
  }

  /** Adding a live head keeps a registry tidy for every address. */
  lemma ClientAddTidy(c: Clients, t: nat, ip: u32, now: int, slot: NodeId, ip': u32)
    requires WellLinked(c) && t < |c.shards| && slot !in c.heap && Tidy(c, ip')
    ensures WellLinked(ClientAdd(c, t, ip, now, slot)) && Tidy(ClientAdd(c, t, ip, now, slot), ip')
  {
    ClientAddChains(c, t, ip, now, slot);
  }

  /** A second connection from an address just added is not added again: it
      finds the new record, which has no player yet, so the socket is closed.
      This holds always with the intended lookup, and as written when no
      shard is empty and no head that is no longer live holds the address. */
  lemma NetAcceptAddsOnce(c: Clients, thread: nat, ip: u32, now: int, slot: NodeId, slot2: NodeId, v: Variant)
    requires WellLinked(c) && thread < |c.shards| && slot !in c.heap
    requires v == AsWritten ==> Tidy(c, ip)
    requires NetAccept(c, thread, ip, now, slot, v) == Accept(true, ClientAdd(c, thread, ip, now, slot))
    requires slot2 !in ClientAdd(c, thread, ip, now, slot).heap
    ensures WellLinked(ClientAdd(c, thread, ip, now, slot))
    ensures NetAccept(ClientAdd(c, thread, ip, now, slot), thread, ip, now, slot2, v) ==
      Accept(false, ClientAdd(c, thread, ip, now, slot))
  {
    var c' := ClientAdd(c, thread, ip, now, slot);
    ClientAddChains(c, thread, ip, now, slot);
    assert c'.heap.Keys != c.heap.Keys;
    if v == AsWritten {
      ClientFindAgrees(c, ip);
      ClientAddTidy(c, thread, ip, now, slot, ip);
      ClientFindAgrees(c', ip);
    }
    AddedIsFound(c, thread, ip, now, slot, c');
  }

  /** An address that was nowhere visible is found, after its addition, at
      the new head. */
  lemma AddedIsFound(c: Clients, thread: nat, ip: u32, now: int, slot: NodeId, c': Clients)
    requires WellLinked(c) && thread < |c.shards| && slot !in c.heap
    requires ClientFindChecked(c, ip).NotFound?
    requires c' == ClientAdd(c, thread, ip, now, slot)
    ensures WellLinked(c') && ClientFindChecked(c', ip) == Found(slot)
  {
    ClientAddChains(c, thread, ip, now, slot);
    assert |c'.shards| == |c.shards|;
    assert LiveMatch(c', thread, 0, ip);
    forall k', j' | 0 <= k' < thread ensures !LiveMatch(c', k', j', ip) {
      assert ChainOf(c', k') == ChainOf(c, k');
      assert !LiveMatch(c, k', j', ip);
    }
  }

  /** As written, a head that is no longer live holding the address in the
      first shard hides the address from every later shard: each connection
      from it accepted by another thread adds the address again. */
  lemma NetAcceptAddsAgain(c: Clients, thread: nat, ip: u32, now: int, slot: NodeId, slot2: NodeId)
    requires WellLinked(c) && 0 < thread < |c.shards| && slot !in c.heap
    requires c.shards[0].head.Some? && c.heap[c.shards[0].head.value].ip == ip && !c.shards[0].headValid
    requires slot2 !in ClientAdd(c, thread, ip, now, slot).heap
    ensures NetAccept(c, thread, ip, now, slot, AsWritten) == Accept(true, ClientAdd(c, thread, ip, now, slot))
    ensures WellLinked(ClientAdd(c, thread, ip, now, slot))
    ensures var c' := ClientAdd(c, thread, ip, now, slot);
      NetAccept(c', thread, ip, now, slot2, AsWritten) == Accept(true, ClientAdd(c', thread, ip, now, slot2))
  {
    ClientAddChains(c, thread, ip, now, slot);
    var c' := ClientAdd(c, thread, ip, now, slot);
    assert ChainOf(c', 0) == ChainOf(c, 0);
  }

  // ---------------------------------------------------------------------
  // clients_check_timeout

  /** A console command queued for a game server. */
  datatype Command = Command(server: nat, text: seq<char>)

  /** The command that takes an account off a server's whitelist. */
  function WhitelistRemove(pl: Player): Command {
    Command(pl.server, "whitelist remove " + pl.name)
  }

  /** The commands queued for a released record's player: none without one. */
  function Unlisting(player: Option<Player>): seq<Command> {
    match player
    case None => []
    case Some(pl) => [WhitelistRemove(pl)]
  }

  /** The two cut-off times of one sweep: clients with a player expire at
      `remove`, clients without one at `unbound`. */
  datatype Limits = Limits(remove: int, unbound: int)

  /** A record whose connection time is at or before its cut-off. */
  predicate Stale(cl: Client, lim: Limits) {
    cl.conntime <= (if cl.player.Some? then lim.remove else lim.unbound)
  }

  /** The cut-offs as the sweep computes them from time(NULL) and the timeout:
      the second one divides the first cut-off, a point in time, by three. */
  function Thresholds(now: int, timeout: int): (lim: Limits)
    ensures lim.remove == now - timeout
    ensures now - timeout >= 0 ==> 3 * lim.unbound <= now - timeout < 3 * lim.unbound + 3
  {
    Limits(now - timeout, CDiv(now - timeout, 3))
  }

  /** The cut-offs as evidently intended: a client that never logged in gets
      a third of the timeout. */
  function ThresholdsIntended(now: int, timeout: int): (lim: Limits)
    requires timeout >= 0
    ensures lim.remove == now - timeout
    ensures now - timeout <= lim.unbound <= now
    ensures 3 * (now - lim.unbound) <= timeout < 3 * (now - lim.unbound) + 3
  {
    Limits(now - timeout, now - CDiv(timeout, 3))
  }

  /** With time(NULL) at least twice the timeout, a client without a player
      that connected after the current time's first third is never stale for
      the cut-off as written: such clients never time out. */
  lemma ThresholdsUnboundNeverExpire(now: int, timeout: int, cl: Client)
    requires 0 <= timeout && 2 * timeout <= now
    requires cl.player.None? && 3 * cl.conntime > now
    ensures !Stale(cl, Thresholds(now, timeout))
  {
  }

  /** The concrete case: at time 1000 with the 15-second timeout, a client
      without a player that connected at 990 is past its intended 5 seconds
      but the cut-off as written is 328. */
  lemma ThresholdsCounterexample()
    ensures Thresholds(1000, 15).unbound == 328
    ensures !Stale(Client(0, 990, None, None), Thresholds(1000, 15))
    ensures Stale(Client(0, 990, None, None), ThresholdsIntended(1000, 15))
  {
  }

  /** What one sweep has done so far: the heap, the records it handed back to
      the allocator, the commands it queued, how many times it read a record
      after handing it back and handed back one already handed back, the
      records whose player_t has been freed, and how many times free() was
      called on a player_t already freed. */
  datatype Pass = Pass(heap: Heap, released: set<NodeId>, log: seq<Command>, lateReads: nat, doubleFrees: nat,
                       playersFreed: set<NodeId>, playerDoubleFrees: nat)

  /** The state a sweep starts from. */
  function Start(c: Clients): (p: Pass)
    ensures p.heap == c.heap && p.released == c.freed && p.playersFreed == c.playersFreed
    ensures p.log == [] && p.lateReads == 0 && p.doubleFrees == 0 && p.playerDoubleFrees == 0
  {
    Pass(c.heap, c.freed, [], 0, 0, c.playersFreed, 0)
  }

  /** Nothing about the player_t records changed between p and q. */
  predicate SamePlayers(p: Pass, q: Pass) {
    q.playersFreed == p.playersFreed && q.playerDoubleFrees == p.playerDoubleFrees
  }

  /** A read of node n's fields, counted when n was already released. */
  function Touch(p: Pass, n: NodeId): (r: Pass)
    ensures r.heap == p.heap && r.released == p.released && r.log == p.log && r.doubleFrees == p.doubleFrees
    ensures r.lateReads == p.lateReads + (if n in p.released then 1 else 0) && SamePlayers(p, r)
  {
    if n in p.released then p.(lateReads := p.lateReads + 1) else p
  }

  /** 1 when n was already handed back, so that handing it back again is a
      double free. */
  function Freed(p: Pass, n: NodeId): nat {
    if n in p.released then 1 else 0
  }

  /** The reads one round of the loop makes before it decides: `next` of
      prev, then the conntime and player of the node cl found there. */
  function Visit(p: Pass, prev: NodeId, cl: NodeId): (r: Pass)
    ensures r.heap == p.heap && r.released == p.released && r.log == p.log && r.doubleFrees == p.doubleFrees
    ensures r.lateReads == p.lateReads + Freed(p, prev) + Freed(p, cl) && SamePlayers(p, r)
  {
    Touch(Touch(p, prev), cl)
  }

  /** Records agree on everything the sweep reads besides `next`. */
  predicate SameRecord(a: Client, b: Client) {
    a.ip == b.ip && a.conntime == b.conntime && a.player == b.player
  }

  /** free(player) at line 90, reached when the record holds a player: that
      player_t joins the freed ones, and freeing one already freed is a
      double free, after server_command has formatted the removal from its
      freed name and server. */
  function FreePlayer(p: Pass, cl: NodeId, player: Option<Player>): (r: Pass)
    ensures r.heap == p.heap && r.released == p.released && r.log == p.log
    ensures r.lateReads == p.lateReads && r.doubleFrees == p.doubleFrees
    ensures r.playersFreed == if player.Some? then p.playersFreed + {cl} else p.playersFreed
    ensures r.playerDoubleFrees == p.playerDoubleFrees + (if player.Some? && cl in p.playersFreed then 1 else 0)
  {
    if player.None? then p
    else p.(playersFreed := p.playersFreed + {cl},
            playerDoubleFrees := p.playerDoubleFrees + (if cl in p.playersFreed then 1 else 0))
  }

  /** Lines 83-91 of the loop as written on a stale node: unlink it behind
      prev, release it, then read its player back from the released record,
      queue the whitelist command and free the player. */
  function Release(p: Pass, prev: NodeId, cl: NodeId): (r: Pass)
    requires prev in p.heap && cl in p.heap
    ensures r.heap == AlRemove(p.heap, prev, cl) && r.released == p.released + {cl}
    ensures r.lateReads == p.lateReads + 1 && r.doubleFrees == p.doubleFrees + Freed(p, cl)
    ensures prev != cl ==> r.log == p.log + Unlisting(p.heap[cl].player)
    ensures p.log <= r.log
    ensures r.playersFreed == if p.heap[cl].player.Some? then p.playersFreed + {cl} else p.playersFreed
    ensures r.playerDoubleFrees ==
      p.playerDoubleFrees + (if p.heap[cl].player.Some? && cl in p.playersFreed then 1 else 0)
  {
    var h := AlRemove(p.heap, prev, cl);
    var p1 := Touch(p.(heap := h, released := p.released + {cl}, doubleFrees := p.doubleFrees + Freed(p, cl)), cl);
    FreePlayer(p1.(log := p1.log + Unlisting(h[cl].player)), cl, h[cl].player)
  }

  /** The same step with the player taken before the release. */
  function ReleaseFixed(p: Pass, prev: NodeId, cl: NodeId): (r: Pass)
    requires prev in p.heap && cl in p.heap
    ensures r.heap == AlRemove(p.heap, prev, cl) && r.released == p.released + {cl}
    ensures r.lateReads == p.lateReads && r.doubleFrees == p.doubleFrees + Freed(p, cl)
    ensures r.log == p.log + Unlisting(p.heap[cl].player)
    ensures r.playersFreed == if p.heap[cl].player.Some? then p.playersFreed + {cl} else p.playersFreed
    ensures r.playerDoubleFrees ==
      p.playerDoubleFrees + (if p.heap[cl].player.Some? && cl in p.playersFreed then 1 else 0)
  {
    var log := p.log + Unlisting(p.heap[cl].player);
    FreePlayer(p.(heap := AlRemove(p.heap, prev, cl), released := p.released + {cl}, log := log,
                  doubleFrees := p.doubleFrees + Freed(p, cl)), cl, p.heap[cl].player)
  }

  /** The inner loop as written, over the nodes ns that follow prev: each
      round reads `next` of prev, and a stale node, once released, becomes
      prev for the next round. */
  function TailPass(p: Pass, prev: NodeId, ns: seq<NodeId>, lim: Limits): (r: Pass)
    requires prev in p.heap && forall i :: 0 <= i < |ns| ==> ns[i] in p.heap
    ensures r.heap.Keys == p.heap.Keys
    ensures forall n :: n in p.heap && n != prev && n !in ns ==> r.heap[n] == p.heap[n]
    ensures forall n :: n in p.heap ==> SameRecord(r.heap[n], p.heap[n])
    ensures p.released <= r.released && p.lateReads <= r.lateReads && p.doubleFrees <= r.doubleFrees
    ensures p.playersFreed <= r.playersFreed && p.playerDoubleFrees <= r.playerDoubleFrees
    ensures p.released <= p.heap.Keys ==> r.released <= r.heap.Keys
    ensures p.log <= r.log
    decreases |ns|
  {
    if |ns| == 0 then Touch(p, prev)
    else
      var p1 := Visit(p, prev, ns[0]);
      if Stale(p1.heap[ns[0]], lim) then TailPass(Release(p1, prev, ns[0]), ns[0], ns[1..], lim)
      else TailPass(p1, ns[0], ns[1..], lim)
  }

  /** The inner loop as evidently intended: prev stays where it is after an
      unlink. */
  function TailPassFixed(p: Pass, prev: NodeId, ns: seq<NodeId>, lim: Limits): (r: Pass)
    requires prev in p.heap && forall i :: 0 <= i < |ns| ==> ns[i] in p.heap
    ensures r.heap.Keys == p.heap.Keys
    ensures forall n :: n in p.heap && n != prev && n !in ns ==> r.heap[n] == p.heap[n]
    ensures forall n :: n in p.heap ==> SameRecord(r.heap[n], p.heap[n])
    ensures p.released <= r.released && p.lateReads <= r.lateReads && p.doubleFrees <= r.doubleFrees
    ensures p.playersFreed <= r.playersFreed && p.playerDoubleFrees <= r.playerDoubleFrees
    ensures p.released <= p.heap.Keys ==> r.released <= r.heap.Keys
    ensures p.log <= r.log
    decreases |ns|
  {
    if |ns| == 0 then Touch(p, prev)
    else
      var p1 := Visit(p, prev, ns[0]);
      if Stale(p1.heap[ns[0]], lim) then TailPassFixed(ReleaseFixed(p1, prev, ns[0]), prev, ns[1..], lim)
      else TailPassFixed(p1, ns[0], ns[1..], lim)
  }

  /** The nodes still linked after the loop as written: a stale node is
      unlinked only when the node before it was not itself just unlinked. */
  function KeptAW(h: Heap, ns: seq<NodeId>, prevUnlinked: bool, lim: Limits): (r: seq<NodeId>)
    requires forall i :: 0 <= i < |ns| ==> ns[i] in h
    ensures forall i :: 0 <= i < |r| ==> r[i] in ns
    decreases |ns|
  {
    if |ns| == 0 then []
    else if Stale(h[ns[0]], lim) && !prevUnlinked then KeptAW(h, ns[1..], true, lim)
    else [ns[0]] + KeptAW(h, ns[1..], false, lim)
  }

  /** The nodes of ns that are not stale, in order. */
  function Fresh(h: Heap, ns: seq<NodeId>, lim: Limits): (r: seq<NodeId>)
    requires forall i :: 0 <= i < |ns| ==> ns[i] in h
    ensures forall i :: 0 <= i < |r| ==> r[i] in ns && !Stale(h[r[i]], lim)
    ensures forall i :: 0 <= i < |ns| && !Stale(h[ns[i]], lim) ==> ns[i] in r
    decreases |ns|
  {
    if |ns| == 0 then []
    else if Stale(h[ns[0]], lim) then Fresh(h, ns[1..], lim)
    else [ns[0]] + Fresh(h, ns[1..], lim)
  }

  /** The command a sweep queues for one record: a whitelist removal when
      the record is stale and has a player. */
  function RemovalOf(cl: Client, lim: Limits): seq<Command> {
    if Stale(cl, lim) then Unlisting(cl.player) else []
  }

  /** The commands a sweep queues for ns, in list order. */
  function Removals(h: Heap, ns: seq<NodeId>, lim: Limits): seq<Command>
    requires forall i :: 0 <= i < |ns| ==> ns[i] in h
    decreases |ns|
  {
    if |ns| == 0 then [] else RemovalOf(h[ns[0]], lim) + Removals(h, ns[1..], lim)
  }

  /** How many nodes of ns are stale. */
  function StaleCount(h: Heap, ns: seq<NodeId>, lim: Limits): (r: nat)
    requires forall i :: 0 <= i < |ns| ==> ns[i] in h
    ensures r == 0 <==> forall i :: 0 <= i < |ns| ==> !Stale(h[ns[i]], lim)
    ensures r <= |ns|
    decreases |ns|
  {
    if |ns| == 0 then 0
    else (if Stale(h[ns[0]], lim) then 1 else 0) + StaleCount(h, ns[1..], lim)
  }

  lemma DistinctTail(ns: seq<NodeId>)
    requires |ns| > 0 && Distinct(ns)
    ensures Distinct(ns[1..]) && ns[0] !in ns[1..]
  {
    assert forall i :: 0 <= i < |ns[1..]| ==> ns[1..][i] == ns[i + 1];
  }

  /** What the loop as written leaves linked.  `last` is the last node still
      on the list before ns: prev itself, or the node before prev when prev
      has just been unlinked. */
  lemma {:induction false} TailPassLinks(h0: Heap, p: Pass, prev: NodeId, last: NodeId, unlinked: bool,
                                         ns: seq<NodeId>, lim: Limits)
    requires prev in p.heap && last in p.heap && forall i :: 0 <= i < |ns| ==> ns[i] in p.heap
    requires ChainIs(p.heap, p.heap[prev].next, ns) && Distinct(ns) && prev !in ns && last !in ns
    requires if unlinked then last != prev && p.heap[last].next == p.heap[prev].next else last == prev
    requires forall i :: 0 <= i < |ns| ==> ns[i] in h0 && SameRecord(h0[ns[i]], p.heap[ns[i]])
    ensures ChainIs(TailPass(p, prev, ns, lim).heap, TailPass(p, prev, ns, lim).heap[last].next,
                    KeptAW(h0, ns, unlinked, lim))
    decreases |ns|, 1
  {
    if |ns| > 0 {
      DistinctTail(ns);
      if !Stale(p.heap[ns[0]], lim) {
        LinksKeep(h0, p, prev, last, unlinked, ns, lim);
      } else if unlinked {
        LinksStaleAfterUnlink(h0, p, prev, last, ns, lim);
      } else {
        LinksStaleUnlink(h0, p, prev, ns, lim);
      }
    }
  }

  lemma {:induction false} LinksKeep(h0: Heap, p: Pass, prev: NodeId, last: NodeId, unlinked: bool,
                                     ns: seq<NodeId>, lim: Limits)
    requires prev in p.heap && last in p.heap && forall i :: 0 <= i < |ns| ==> ns[i] in p.heap
    requires ChainIs(p.heap, p.heap[prev].next, ns) && Distinct(ns) && prev !in ns && last !in ns
    requires if unlinked then last != prev && p.heap[last].next == p.heap[prev].next else last == prev
    requires forall i :: 0 <= i < |ns| ==> ns[i] in h0 && SameRecord(h0[ns[i]], p.heap[ns[i]])
    requires |ns| > 0 && !Stale(p.heap[ns[0]], lim) && Distinct(ns[1..]) && ns[0] !in ns[1..]
    ensures ChainIs(TailPass(p, prev, ns, lim).heap, TailPass(p, prev, ns, lim).heap[last].next,
                    KeptAW(h0, ns, unlinked, lim))
    decreases |ns|, 0
  {
    var cl, tl := ns[0], ns[1..];
    var p0 := Visit(p, prev, cl);
    TailPassLinks(h0, p0, cl, cl, false, tl, lim);
    assert ([cl] + KeptAW(h0, tl, false, lim))[1..] == KeptAW(h0, tl, false, lim);
  }

  lemma {:induction false} LinksStaleUnlink(h0: Heap, p: Pass, prev: NodeId, ns: seq<NodeId>, lim: Limits)
    requires prev in p.heap && forall i :: 0 <= i < |ns| ==> ns[i] in p.heap
    requires ChainIs(p.heap, p.heap[prev].next, ns) && Distinct(ns) && prev !in ns
    requires forall i :: 0 <= i < |ns| ==> ns[i] in h0 && SameRecord(h0[ns[i]], p.heap[ns[i]])
    requires |ns| > 0 && Stale(p.heap[ns[0]], lim) && Distinct(ns[1..]) && ns[0] !in ns[1..]
    ensures ChainIs(TailPass(p, prev, ns, lim).heap, TailPass(p, prev, ns, lim).heap[prev].next,
                    KeptAW(h0, ns, false, lim))
    decreases |ns|, 0
  {
    var cl, tl := ns[0], ns[1..];
    var p2 := Release(Visit(p, prev, cl), prev, cl);
    ChainFrame(p.heap, p2.heap, p.heap[cl].next, tl);
    TailPassLinks(h0, p2, cl, prev, true, tl, lim);
  }

  lemma {:induction false} LinksStaleAfterUnlink(h0: Heap, p: Pass, prev: NodeId, last: NodeId,
                                                 ns: seq<NodeId>, lim: Limits)
    requires prev in p.heap && last in p.heap && forall i :: 0 <= i < |ns| ==> ns[i] in p.heap
    requires ChainIs(p.heap, p.heap[prev].next, ns) && Distinct(ns) && prev !in ns && last !in ns
    requires last != prev && p.heap[last].next == p.heap[prev].next
    requires forall i :: 0 <= i < |ns| ==> ns[i] in h0 && SameRecord(h0[ns[i]], p.heap[ns[i]])
    requires |ns| > 0 && Stale(p.heap[ns[0]], lim) && Distinct(ns[1..]) && ns[0] !in ns[1..]
    ensures ChainIs(TailPass(p, prev, ns, lim).heap, TailPass(p, prev, ns, lim).heap[last].next,
                    KeptAW(h0, ns, true, lim))
    decreases |ns|, 0
  {
    var cl, tl := ns[0], ns[1..];
    var p2 := Release(Visit(p, prev, cl), prev, cl);
    ChainFrame(p.heap, p2.heap, p.heap[cl].next, tl);
    TailPassLinks(h0, p2, cl, cl, false, tl, lim);
    assert ([cl] + KeptAW(h0, tl, false, lim))[1..] == KeptAW(h0, tl, false, lim);
  }

  /** What the intended loop leaves linked: exactly the nodes that are not stale. */
  lemma {:induction false} TailPassFixedLinks(h0: Heap, p: Pass, prev: NodeId, ns: seq<NodeId>, lim: Limits)
    requires prev in p.heap && forall i :: 0 <= i < |ns| ==> ns[i] in p.heap
    requires ChainIs(p.heap, p.heap[prev].next, ns) && Distinct(ns) && prev !in ns
    requires forall i :: 0 <= i < |ns| ==> ns[i] in h0 && SameRecord(h0[ns[i]], p.heap[ns[i]])
    ensures ChainIs(TailPassFixed(p, prev, ns, lim).heap, TailPassFixed(p, prev, ns, lim).heap[prev].next,
                    Fresh(h0, ns, lim))
    decreases |ns|, 1
  {
    if |ns| > 0 {
      DistinctTail(ns);
      if Stale(p.heap[ns[0]], lim) {
        FixedLinksStale(h0, p, prev, ns, lim);
      } else {
        FixedLinksKeep(h0, p, prev, ns, lim);
      }
    }
  }

  lemma {:induction false} FixedLinksStale(h0: Heap, p: Pass, prev: NodeId, ns: seq<NodeId>, lim: Limits)
    requires prev in p.heap && forall i :: 0 <= i < |ns| ==> ns[i] in p.heap
    requires ChainIs(p.heap, p.heap[prev].next, ns) && Distinct(ns) && prev !in ns
    requires forall i :: 0 <= i < |ns| ==> ns[i] in h0 && SameRecord(h0[ns[i]], p.heap[ns[i]])
    requires |ns| > 0 && Stale(p.heap[ns[0]], lim) && Distinct(ns[1..]) && ns[0] !in ns[1..]
    ensures ChainIs(TailPassFixed(p, prev, ns, lim).heap, TailPassFixed(p, prev, ns, lim).heap[prev].next,
                    Fresh(h0, ns, lim))
    decreases |ns|, 0
  {
    var cl, tl := ns[0], ns[1..];
    var p1 := ReleaseFixed(Visit(p, prev, cl), prev, cl);
    ChainFrame(p.heap, p1.heap, p.heap[cl].next, tl);
    TailPassFixedLinks(h0, p1, prev, tl, lim);
  }

  lemma {:induction false} FixedLinksKeep(h0: Heap, p: Pass, prev: NodeId, ns: seq<NodeId>, lim: Limits)
    requires prev in p.heap && forall i :: 0 <= i < |ns| ==> ns[i] in p.heap
    requires ChainIs(p.heap, p.heap[prev].next, ns) && Distinct(ns) && prev !in ns
    requires forall i :: 0 <= i < |ns| ==> ns[i] in h0 && SameRecord(h0[ns[i]], p.heap[ns[i]])
    requires |ns| > 0 && !Stale(p.heap[ns[0]], lim) && Distinct(ns[1..]) && ns[0] !in ns[1..]
    ensures ChainIs(TailPassFixed(p, prev, ns, lim).heap, TailPassFixed(p, prev, ns, lim).heap[prev].next,
                    Fresh(h0, ns, lim))
    decreases |ns|, 0
  {
    var cl, tl := ns[0], ns[1..];
    TailPassFixedLinks(h0, Visit(p, prev, cl), cl, tl, lim);
    assert ([cl] + Fresh(h0, tl, lim))[1..] == Fresh(h0, tl, lim);
  }

  /** One round of the loop as written. */
  lemma TailPassStep(p: Pass, prev: NodeId, ns: seq<NodeId>, lim: Limits)
    requires prev in p.heap && forall i :: 0 <= i < |ns| ==> ns[i] in p.heap
    ensures |ns| == 0 ==> TailPass(p, prev, ns, lim) == Touch(p, prev)
    ensures |ns| > 0 && Stale(p.heap[ns[0]], lim) ==>
      TailPass(p, prev, ns, lim) == TailPass(Release(Visit(p, prev, ns[0]), prev, ns[0]), ns[0], ns[1..], lim)
    ensures |ns| > 0 && !Stale(p.heap[ns[0]], lim) ==>
      TailPass(p, prev, ns, lim) == TailPass(Visit(p, prev, ns[0]), ns[0], ns[1..], lim)
  {
  }

  /** One round of the intended loop. */
  lemma TailPassFixedStep(p: Pass, prev: NodeId, ns: seq<NodeId>, lim: Limits)
    requires prev in p.heap && forall i :: 0 <= i < |ns| ==> ns[i] in p.heap
    requires |ns| > 0
    ensures Stale(p.heap[ns[0]], lim) ==>
      TailPassFixed(p, prev, ns, lim) == TailPassFixed(ReleaseFixed(Visit(p, prev, ns[0]), prev, ns[0]), prev, ns[1..], lim)
    ensures !Stale(p.heap[ns[0]], lim) ==>
      TailPassFixed(p, prev, ns, lim) == TailPassFixed(Visit(p, prev, ns[0]), ns[0], ns[1..], lim)
  {
  }

  /** The loop as written releases exactly the stale nodes. */
  lemma {:induction false} TailPassReleases(h0: Heap, p: Pass, prev: NodeId, ns: seq<NodeId>, lim: Limits)
    requires prev in p.heap && forall i :: 0 <= i < |ns| ==> ns[i] in p.heap
    requires Distinct(ns) && prev !in ns
    requires forall i :: 0 <= i < |ns| ==> ns[i] in h0 && SameRecord(h0[ns[i]], p.heap[ns[i]])
    requires forall i :: 0 <= i < |ns| ==> ns[i] !in p.released
    ensures forall i :: 0 <= i < |ns| ==>
      (ns[i] in TailPass(p, prev, ns, lim).released <==> Stale(h0[ns[i]], lim))
    ensures forall n :: n in TailPass(p, prev, ns, lim).released ==> n in p.released || n in ns
    decreases |ns|
  {
    if |ns| > 0 {
      DistinctTail(ns);
      var cl, tl := ns[0], ns[1..];
      TailPassStep(p, prev, ns, lim);
      var q := if Stale(p.heap[cl], lim) then Release(Visit(p, prev, cl), prev, cl) else Visit(p, prev, cl);
      assert q.released == if Stale(h0[cl], lim) then p.released + {cl} else p.released;
      RoundCarries(h0, p, prev, ns, q);
      TailPassReleases(h0, q, cl, tl, lim);
      ReleasedRound(h0, ns, p.released, q.released, TailPass(q, cl, tl, lim).released, lim);
    }
  }

  /** After one round of either loop over ns, the rest of ns still meets
      what the loop asks of it: live in the heap, with its records unchanged
      and not yet released. */
  lemma RoundCarries(h0: Heap, p: Pass, prev: NodeId, ns: seq<NodeId>, q: Pass)
    requires prev in p.heap && forall i :: 0 <= i < |ns| ==> ns[i] in p.heap
    requires forall i :: 0 <= i < |ns| ==> ns[i] in h0 && SameRecord(h0[ns[i]], p.heap[ns[i]])
    requires forall i :: 0 <= i < |ns| ==> ns[i] !in p.released
    requires |ns| > 0 && ns[0] !in ns[1..]
    requires q.heap == p.heap || q.heap == AlRemove(p.heap, prev, ns[0])
    requires q.released == p.released || q.released == p.released + {ns[0]}
    ensures prev in q.heap && ns[0] in q.heap
    ensures forall i :: 0 <= i < |ns[1..]| ==> ns[1..][i] in q.heap
    ensures forall i :: 0 <= i < |ns[1..]| ==> ns[1..][i] in h0 && SameRecord(h0[ns[1..][i]], q.heap[ns[1..][i]])
    ensures forall i :: 0 <= i < |ns[1..]| ==> ns[1..][i] !in q.released
  {
    forall i | 0 <= i < |ns[1..]|
      ensures ns[1..][i] in q.heap && SameRecord(h0[ns[1..][i]], q.heap[ns[1..][i]])
    {
      assert ns[1..][i] == ns[i + 1];
    }
  }

  /** One round of TailPassReleases on the released sets alone: the head of
      ns is released exactly when stale, and the rest by induction. */
  lemma ReleasedRound(h0: Heap, ns: seq<NodeId>, pr: set<NodeId>, qr: set<NodeId>, rr: set<NodeId>, lim: Limits)
    requires |ns| > 0 && ns[0] !in ns[1..] && ns[0] !in pr
    requires forall i :: 0 <= i < |ns| ==> ns[i] in h0
    requires qr == if Stale(h0[ns[0]], lim) then pr + {ns[0]} else pr
    requires qr <= rr
    requires forall i :: 0 <= i < |ns[1..]| ==> (ns[1..][i] in rr <==> Stale(h0[ns[1..][i]], lim))
    requires forall n :: n in rr ==> n in qr || n in ns[1..]
    ensures forall i :: 0 <= i < |ns| ==> (ns[i] in rr <==> Stale(h0[ns[i]], lim))
    ensures forall n :: n in rr ==> n in pr || n in ns
  {
    forall i | 1 <= i < |ns|
      ensures ns[i] in rr <==> Stale(h0[ns[i]], lim)
    {
      assert ns[i] == ns[1..][i - 1];
    }
  }

  lemma ReleaseLog(p: Pass, prev: NodeId, cl: NodeId, lim: Limits)
    requires prev in p.heap && cl in p.heap && Stale(p.heap[cl], lim)
    ensures Release(p, prev, cl).log == p.log + RemovalOf(p.heap[cl], lim)
    ensures ReleaseFixed(p, prev, cl).log == p.log + RemovalOf(p.heap[cl], lim)
  {
  }

  /** The loop as written queues one whitelist removal per stale node with a
      player, in list order. */
  lemma {:induction false} TailPassQueues(h0: Heap, p: Pass, prev: NodeId, ns: seq<NodeId>, lim: Limits)
    requires prev in p.heap && forall i :: 0 <= i < |ns| ==> ns[i] in p.heap
    requires forall i :: 0 <= i < |ns| ==> ns[i] in h0 && SameRecord(h0[ns[i]], p.heap[ns[i]])
    ensures TailPass(p, prev, ns, lim).log == p.log + Removals(h0, ns, lim)
    decreases |ns|, 1
  {
    if |ns| > 0 {
      QueuesRound(h0, p, prev, ns, lim);
    } else {
      assert p.log + Removals(h0, ns, lim) == p.log;
    }
  }

  lemma {:induction false} QueuesRound(h0: Heap, p: Pass, prev: NodeId, ns: seq<NodeId>, lim: Limits)
    requires prev in p.heap && forall i :: 0 <= i < |ns| ==> ns[i] in p.heap
    requires forall i :: 0 <= i < |ns| ==> ns[i] in h0 && SameRecord(h0[ns[i]], p.heap[ns[i]])
    requires |ns| > 0
    ensures TailPass(p, prev, ns, lim).log == p.log + Removals(h0, ns, lim)
    decreases |ns|, 0
  {
    var cl, tl := ns[0], ns[1..];
    TailPassStep(p, prev, ns, lim);
    var q := if Stale(p.heap[cl], lim) then Release(Visit(p, prev, cl), prev, cl) else Visit(p, prev, cl);
    assert q.log == p.log + RemovalOf(h0[cl], lim) by {
      if Stale(p.heap[cl], lim) {
        ReleaseLog(Visit(p, prev, cl), prev, cl, lim);
      } else {
        assert p.log + [] == p.log;
      }
    }
    assert TailPass(p, prev, ns, lim) == TailPass(q, cl, tl, lim);
    TailPassQueues(h0, q, cl, tl, lim);
    RemovalsCons(h0, ns, lim, p.log);
  }

  lemma RemovalsCons(h: Heap, ns: seq<NodeId>, lim: Limits, log: seq<Command>)
    requires |ns| > 0 && forall i :: 0 <= i < |ns| ==> ns[i] in h
    ensures log + RemovalOf(h[ns[0]], lim) + Removals(h, ns[1..], lim) == log + Removals(h, ns, lim)
  {
    AppendAssoc(log, RemovalOf(h[ns[0]], lim), Removals(h, ns[1..], lim));
  }

  lemma AppendAssoc(a: seq<Command>, b: seq<Command>, c: seq<Command>)
    ensures a + b + c == a + (b + c)
  {
  }

  /** The loop as written reads every released record twice more: its player
      right after the release, and its `next` when it has become prev. */
  lemma {:induction false} TailPassLateReads(h0: Heap, p: Pass, prev: NodeId, ns: seq<NodeId>, lim: Limits)
    requires prev in p.heap && forall i :: 0 <= i < |ns| ==> ns[i] in p.heap
    requires Distinct(ns)
    requires forall i :: 0 <= i < |ns| ==> ns[i] in h0 && SameRecord(h0[ns[i]], p.heap[ns[i]])
    requires forall i :: 0 <= i < |ns| ==> ns[i] !in p.released
    ensures TailPass(p, prev, ns, lim).lateReads ==
      p.lateReads + (if prev in p.released then 1 else 0) + 2 * StaleCount(h0, ns, lim)
    decreases |ns|, 1
  {
    if |ns| > 0 {
      DistinctTail(ns);
      LateReadsRound(h0, p, prev, ns, lim);
    }
  }

  lemma {:induction false} LateReadsRound(h0: Heap, p: Pass, prev: NodeId, ns: seq<NodeId>, lim: Limits)
    requires prev in p.heap && forall i :: 0 <= i < |ns| ==> ns[i] in p.heap
    requires forall i :: 0 <= i < |ns| ==> ns[i] in h0 && SameRecord(h0[ns[i]], p.heap[ns[i]])
    requires forall i :: 0 <= i < |ns| ==> ns[i] !in p.released
    requires |ns| > 0 && Distinct(ns[1..]) && ns[0] !in ns[1..]
    ensures TailPass(p, prev, ns, lim).lateReads ==
      p.lateReads + (if prev in p.released then 1 else 0) + 2 * StaleCount(h0, ns, lim)
    decreases |ns|, 0
  {
    var cl, tl := ns[0], ns[1..];
    TailPassStep(p, prev, ns, lim);
    var q := if Stale(p.heap[cl], lim) then Release(Visit(p, prev, cl), prev, cl) else Visit(p, prev, cl);
    assert TailPass(p, prev, ns, lim) == TailPass(q, cl, tl, lim);
    RoundCarries(h0, p, prev, ns, q);
    TailPassLateReads(h0, q, cl, tl, lim);
  }

  /** The intended loop releases exactly the stale nodes. */
  lemma {:induction false} TailPassFixedReleases(h0: Heap, p: Pass, prev: NodeId, ns: seq<NodeId>, lim: Limits)
    requires prev in p.heap && forall i :: 0 <= i < |ns| ==> ns[i] in p.heap
    requires Distinct(ns) && prev !in ns
    requires forall i :: 0 <= i < |ns| ==> ns[i] in h0 && SameRecord(h0[ns[i]], p.heap[ns[i]])
    requires forall i :: 0 <= i < |ns| ==> ns[i] !in p.released
    ensures forall i :: 0 <= i < |ns| ==>
      (ns[i] in TailPassFixed(p, prev, ns, lim).released <==> Stale(h0[ns[i]], lim))
    ensures forall n :: n in TailPassFixed(p, prev, ns, lim).released ==> n in p.released || n in ns
    decreases |ns|
  {
    if |ns| > 0 {
      DistinctTail(ns);
      var cl, tl := ns[0], ns[1..];
      TailPassFixedStep(p, prev, ns, lim);
      var stale := Stale(p.heap[cl], lim);
      var q := if stale then ReleaseFixed(Visit(p, prev, cl), prev, cl) else Visit(p, prev, cl);
      RoundCarries(h0, p, prev, ns, q);
      var prev' := if stale then prev else cl;
      TailPassFixedReleases(h0, q, prev', tl, lim);
      assert q.released == if Stale(h0[cl], lim) then p.released + {cl} else p.released;
      ReleasedRound(h0, ns, p.released, q.released, TailPassFixed(q, prev', tl, lim).released, lim);
    }
  }

  /** The intended loop queues the same commands as the loop as written. */
  lemma {:induction false} TailPassFixedQueues(h0: Heap, p: Pass, prev: NodeId, ns: seq<NodeId>, lim: Limits)
    requires prev in p.heap && forall i :: 0 <= i < |ns| ==> ns[i] in p.heap
    requires forall i :: 0 <= i < |ns| ==> ns[i] in h0 && SameRecord(h0[ns[i]], p.heap[ns[i]])
    ensures TailPassFixed(p, prev, ns, lim).log == p.log + Removals(h0, ns, lim)
    decreases |ns|, 1
  {
    if |ns| > 0 {
      FixedQueuesRound(h0, p, prev, ns, lim);
    } else {
      assert p.log + Removals(h0, ns, lim) == p.log;
    }
  }

  lemma {:induction false} FixedQueuesRound(h0: Heap, p: Pass, prev: NodeId, ns: seq<NodeId>, lim: Limits)
    requires prev in p.heap && forall i :: 0 <= i < |ns| ==> ns[i] in p.heap
    requires forall i :: 0 <= i < |ns| ==> ns[i] in h0 && SameRecord(h0[ns[i]], p.heap[ns[i]])
    requires |ns| > 0
    ensures TailPassFixed(p, prev, ns, lim).log == p.log + Removals(h0, ns, lim)
    decreases |ns|, 0
  {
    var cl, tl := ns[0], ns[1..];
    TailPassFixedStep(p, prev, ns, lim);
    var stale := Stale(p.heap[cl], lim);
    var q := if stale then ReleaseFixed(Visit(p, prev, cl), prev, cl) else Visit(p, prev, cl);
    assert q.log == p.log + RemovalOf(h0[cl], lim) by {
      if stale {
        ReleaseLog(Visit(p, prev, cl), prev, cl, lim);
      } else {
        assert p.log + [] == p.log;
      }
    }
    TailPassFixedQueues(h0, q, if stale then prev else cl, tl, lim);
    RemovalsCons(h0, ns, lim, p.log);
  }

  /** The intended loop never reads a released record. */
  lemma {:induction false} TailPassFixedNoLateReads(p: Pass, prev: NodeId, ns: seq<NodeId>, lim: Limits)
    requires prev in p.heap && forall i :: 0 <= i < |ns| ==> ns[i] in p.heap
    requires Distinct(ns) && prev !in ns
    requires prev !in p.released && forall i :: 0 <= i < |ns| ==> ns[i] !in p.released
    ensures TailPassFixed(p, prev, ns, lim).lateReads == p.lateReads
    decreases |ns|
  {
    if |ns| > 0 {
      DistinctTail(ns);
      var cl, tl := ns[0], ns[1..];
      TailPassFixedStep(p, prev, ns, lim);
      var stale := Stale(p.heap[cl], lim);
      var q := if stale then ReleaseFixed(Visit(p, prev, cl), prev, cl) else Visit(p, prev, cl);
      TailPassFixedNoLateReads(q, if stale then prev else cl, tl, lim);
    }
  }

  /** The list a walk starts from: `all` is the shard, head first. */
  ghost predicate WalkShape(h: Heap, all: seq<NodeId>)
  {
    && |all| > 0
    && Distinct(all)
    && (forall j :: 0 <= j < |all| ==> all[j] in h)
    && (forall j :: 0 <= j < |all| - 1 ==> h[all[j]].next == Some(all[j + 1]))
    && h[all[|all| - 1]].next == None
  }

  /** The state of the walk before it reads `next` of prev = all[i]: the nodes
      from prev on are as they were, and what is left to do is TailPass over
      the nodes after prev. */
  ghost predicate WalkInv(p: Pass, all: seq<NodeId>, lim: Limits, goal: Pass, r: Pass, prev: NodeId, i: nat)
  {
    && WalkShape(p.heap, all)
    && i < |all| && prev == all[i]
    && r.heap.Keys == p.heap.Keys
    && (forall j :: i <= j < |all| ==> r.heap[all[j]] == p.heap[all[j]])
    && TailPass(r, prev, all[i + 1..], lim) == goal
  }

  /** One round of the walk: read `next` of prev, and stop at NULL or handle
      the node found. */
  method WalkRound(p: Pass, ghost all: seq<NodeId>, lim: Limits, ghost goal: Pass, r: Pass, prev: NodeId, ghost i: nat)
    returns (r': Pass, prev': NodeId, done: bool)
    requires WalkInv(p, all, lim, goal, r, prev, i)
    ensures done ==> r' == goal
    ensures !done ==> i + 1 < |all| && WalkInv(p, all, lim, goal, r', prev', i + 1)
  {
    TailPassStep(r, prev, all[i + 1..], lim);
    r' := Touch(r, prev);
    var cl := r'.heap[prev].next;
    if cl.None? {
      return r', prev, true;
    }
    var n := cl.value;
    assert n == all[i + 1] && all[i + 1..][1..] == all[i + 2..];
    r' := Touch(r', n);
    if Stale(r'.heap[n], lim) {
      ghost var mid := r';
      r' := Release(r', prev, n);
      assert forall j :: i + 1 <= j < |all| ==> r'.heap[all[j]] == mid.heap[all[j]] by {
        assert forall j :: i + 1 <= j < |all| ==> all[j] != prev;
      }
    }
    return r', n, false;
  }

  /** The inner loop of clients_check_timeout as a loop over the actual `next`
      pointers of the heap as it is being changed; it computes TailPass over
      the nodes the shard held when the loop began. */
  method SweepShardWalk(p: Pass, head: NodeId, lim: Limits) returns (r: Pass)
    requires Chain(p.heap, Some(head)).Some?
    ensures head in p.heap
    ensures r == TailPass(p, head, Chain(p.heap, Some(head)).value[1..], lim)
  {
    ghost var all := Chain(p.heap, Some(head)).value;
    ghost var goal := TailPass(p, head, all[1..], lim);
    ChainCharacterized(p.heap, Some(head), all);
    ChainIsLinks(p.heap, Some(head), all);
    ChainIsDistinct(p.heap, Some(head), all);
    r := p;
    var prev := head;
    ghost var i := 0;
    while true
      invariant WalkInv(p, all, lim, goal, r, prev, i)
      decreases |all| - i
    {
      var done;
      r, prev, done := WalkRound(p, all, lim, goal, r, prev, i);
      if done {
        return;
      }
      i := i + 1;
    }
  }

  // ---------------------------------------------------------------------
  // The whole sweep

  /** The inner loop of the chosen variant. */
  function LoopPass(p: Pass, prev: NodeId, ns: seq<NodeId>, lim: Limits, v: Variant): (r: Pass)
    requires prev in p.heap && forall i :: 0 <= i < |ns| ==> ns[i] in p.heap
    ensures r.heap.Keys == p.heap.Keys
    ensures forall n :: n in p.heap && n != prev && n !in ns ==> r.heap[n] == p.heap[n]
    ensures forall n :: n in p.heap ==> SameRecord(r.heap[n], p.heap[n])
    ensures p.released <= r.released && p.lateReads <= r.lateReads && p.doubleFrees <= r.doubleFrees
    ensures p.playersFreed <= r.playersFreed && p.playerDoubleFrees <= r.playerDoubleFrees
    ensures p.released <= p.heap.Keys ==> r.released <= r.heap.Keys
    ensures p.log <= r.log
  {
    match v
    case AsWritten => TailPass(p, prev, ns, lim)
    case Intended => TailPassFixed(p, prev, ns, lim)
  }

  /** The nodes after the head that the chosen variant leaves linked. */
  function Survivors(h: Heap, ns: seq<NodeId>, lim: Limits, v: Variant): (r: seq<NodeId>)
    requires forall i :: 0 <= i < |ns| ==> ns[i] in h
    ensures forall i :: 0 <= i < |r| ==> r[i] in ns
  {
    match v
    case AsWritten => KeptAW(h, ns, false, lim)
    case Intended => Fresh(h, ns, lim)
  }

  /** The head check of the sweep: a stale head stays on the list and is only
      marked as no longer live. */
  function HeadChecked(s: Shard, head: Client, lim: Limits): (r: Shard)
    ensures r.head == s.head
    ensures r.headValid <==> s.headValid && lim.remove < head.conntime
  {
    if head.conntime <= lim.remove then s.(headValid := false) else s
  }

  /** How a sweep ends: every shard handled, an empty shard's head
      dereferenced, or a list that does not end in NULL met; with what the
      sweep had done to memory and queued by then. */
  datatype Sweep =
    | Swept(pass: Pass, shards: seq<Shard>)
    | SweepNullDeref(shard: nat, pass: Pass)
    | SweepBroken(shard: nat, pass: Pass)

  /** The outer loop of clients_check_timeout from shard k on.  As written it
      reads the head of an empty shard; as intended it steps over it. */
  function SweepFrom(p: Pass, shards: seq<Shard>, k: nat, lim: Limits, v: Variant): (r: Sweep)
    requires k <= |shards|
    ensures r.Swept? ==> |r.shards| == |shards| && r.pass.heap.Keys == p.heap.Keys
    ensures r.SweepNullDeref? ==> v == AsWritten && k <= r.shard < |shards| && shards[r.shard].head.None?
    decreases |shards| - k
  {
    if k == |shards| then Swept(p, shards)
    else
      match shards[k].head
      case None =>
        if v == AsWritten then SweepNullDeref(k, p) else SweepFrom(p, shards, k + 1, lim, v)
      case Some(hd) =>
        match Chain(p.heap, Some(hd))
        case None => SweepBroken(k, p)
        case Some(all) =>
          var s := HeadChecked(shards[k], p.heap[hd], lim);
          SweepFrom(LoopPass(p, hd, all[1..], lim, v), shards[k := s], k + 1, lim, v)
  }

  /** q comes after p in one sweep: the heap keeps its addresses, released
      records, late reads, double frees and queued commands only grow, and
      released records stay heap records. */
  predicate Grows(p: Pass, q: Pass) {
    && q.heap.Keys == p.heap.Keys
    && p.released <= q.released && p.lateReads <= q.lateReads && p.doubleFrees <= q.doubleFrees
    && p.playersFreed <= q.playersFreed && p.playerDoubleFrees <= q.playerDoubleFrees
    && (p.released <= p.heap.Keys ==> q.released <= q.heap.Keys)
    && p.log <= q.log
  }

  lemma GrowsTrans(p: Pass, q: Pass, r: Pass)
    requires Grows(p, q) && Grows(q, r)
    ensures Grows(p, r)
  {
  }

  /** However the outer loop ends, its pass grows from the one it started
      with. */
  lemma {:induction false} SweepFromGrows(p: Pass, shards: seq<Shard>, k: nat, lim: Limits, v: Variant)
    requires k <= |shards|
    ensures Grows(p, SweepFrom(p, shards, k, lim, v).pass)
    decreases |shards| - k
  {
    if k < |shards| {
      match shards[k].head
      case None =>
        if v == Intended {
          SweepFromGrows(p, shards, k + 1, lim, v);
        }
      case Some(hd) =>
        match Chain(p.heap, Some(hd))
        case None =>
        case Some(all) =>
          var s := HeadChecked(shards[k], p.heap[hd], lim);
          var l := LoopPass(p, hd, all[1..], lim, v);
          var r := SweepFrom(l, shards[k := s], k + 1, lim, v);
          assert SweepFrom(p, shards, k, lim, v) == r;
          SweepFromGrows(l, shards[k := s], k + 1, lim, v);
          GrowsTrans(p, l, r.pass);
    }
  }

  /** clients_check_timeout as written, at time `now`. */
  function ClientsCheckTimeout(c: Clients, now: int, timeout: int): (r: Sweep)
    ensures r.Swept? ==> |r.shards| == |c.shards| && r.pass.heap.Keys == c.heap.Keys
    ensures r.SweepNullDeref? ==> r.shard < |c.shards| && c.shards[r.shard].head.None?
  {
    SweepFrom(Start(c), c.shards, 0, Thresholds(now, timeout), AsWritten)
  }

  /** clients_check_timeout as evidently intended. */
  function ClientsCheckTimeoutFixed(c: Clients, now: int, timeout: int): (r: Sweep)
    requires timeout >= 0
    ensures !r.SweepNullDeref?
    ensures r.Swept? ==> |r.shards| == |c.shards| && r.pass.heap.Keys == c.heap.Keys
  {
    SweepFrom(Start(c), c.shards, 0, ThresholdsIntended(now, timeout), Intended)
  }

  /** The shards are allocated zeroed: a registry whose first shard is still
      as al_init leaves it makes the sweep as written dereference NULL, while
      the intended sweep goes on. */
  lemma SweepEmptyShardFaults(c: Clients, now: int, timeout: int)
    requires |c.shards| > 0 && c.shards[0] == AlInit()
    ensures ClientsCheckTimeout(c, now, timeout).SweepNullDeref? && ClientsCheckTimeout(c, now, timeout).shard == 0
  {
  }

  /** The shape of a NULL-terminated list: distinct nodes, the first one after
      the head starting the rest. */
  lemma ListShape(h: Heap, hd: NodeId, ns: seq<NodeId>)
    requires Chain(h, Some(hd)) == Some([hd] + ns)
    ensures hd in h && ChainIs(h, h[hd].next, ns) && Distinct(ns) && hd !in ns
  {
    ChainCharacterized(h, Some(hd), [hd] + ns);
    ChainIsDistinct(h, Some(hd), [hd] + ns);
    assert ([hd] + ns)[1..] == ns;
    DistinctTail([hd] + ns);
  }

  /** What one shard's pass does, for either variant: the list becomes the
      head followed by the survivors, exactly the stale nodes after the head
      are released, the whitelist commands are queued in list order, and the
      intended pass reads no released record. */
  lemma ShardPass(h0: Heap, p: Pass, hd: NodeId, ns: seq<NodeId>, lim: Limits, v: Variant)
    requires Chain(p.heap, Some(hd)) == Some([hd] + ns)
    requires forall i :: 0 <= i < |ns| ==> ns[i] in p.heap && ns[i] in h0 && SameRecord(h0[ns[i]], p.heap[ns[i]])
    requires hd !in p.released && forall i :: 0 <= i < |ns| ==> ns[i] !in p.released
    ensures hd in p.heap && hd !in ns
    ensures ChainIs(LoopPass(p, hd, ns, lim, v).heap, Some(hd), [hd] + Survivors(h0, ns, lim, v))
    ensures forall i :: 0 <= i < |ns| ==> (ns[i] in LoopPass(p, hd, ns, lim, v).released <==> Stale(h0[ns[i]], lim))
    ensures forall n :: n in LoopPass(p, hd, ns, lim, v).released ==> n in p.released || n in ns
    ensures LoopPass(p, hd, ns, lim, v).log == p.log + Removals(h0, ns, lim)
    ensures v == Intended ==> LoopPass(p, hd, ns, lim, v).lateReads == p.lateReads
  {
    ListShape(p.heap, hd, ns);
    var r := LoopPass(p, hd, ns, lim, v);
    var sv := Survivors(h0, ns, lim, v);
    match v
    case AsWritten =>
      TailPassLinks(h0, p, hd, hd, false, ns, lim);
      TailPassReleases(h0, p, hd, ns, lim);
      TailPassQueues(h0, p, hd, ns, lim);
      assert ([hd] + sv)[1..] == sv;
    case Intended =>
      TailPassFixedLinks(h0, p, hd, ns, lim);
      TailPassFixedReleases(h0, p, hd, ns, lim);
      TailPassFixedQueues(h0, p, hd, ns, lim);
      TailPassFixedNoLateReads(p, hd, ns, lim);
      assert ([hd] + sv)[1..] == sv;
  }

  /** The nodes of shard k after its head. */
  function Tail(c: Clients, k: nat): (ns: seq<NodeId>)
    requires WellLinked(c) && k < |c.shards|
    ensures forall i :: 0 <= i < |ns| ==> ns[i] in ChainOf(c, k) && ns[i] in c.heap
    ensures |ChainOf(c, k)| > 0 ==> ChainOf(c, k) == [ChainOf(c, k)[0]] + ns
  {
    var all := ChainOf(c, k);
    if |all| == 0 then [] else all[1..]
  }

  /** The commands a whole sweep queues for shards 0 to k - 1. */
  function RemovalsUpTo(c: Clients, k: nat, lim: Limits): seq<Command>
    requires WellLinked(c) && k <= |c.shards|
  {
    if k == 0 then [] else RemovalsUpTo(c, k - 1, lim) + Removals(c.heap, Tail(c, k - 1), lim)
  }

  /** Shard k's list after a sweep of the chosen variant. */
  function SweptList(c: Clients, k: nat, lim: Limits, v: Variant): (ns: seq<NodeId>)
    requires WellLinked(c) && k < |c.shards|
    ensures forall i :: 0 <= i < |ns| ==> ns[i] in ChainOf(c, k)
    ensures |ns| == 0 <==> |ChainOf(c, k)| == 0
    ensures |ns| > 0 ==> ns[0] == ChainOf(c, k)[0]
  {
    var all := ChainOf(c, k);
    if |all| == 0 then [] else [all[0]] + Survivors(c.heap, Tail(c, k), lim, v)
  }

  /** Nodes of two different shards differ. */
  lemma DisjointIn(c: Clients, k1: nat, k2: nat, n: NodeId)
    requires WellLinked(c) && Disjoint(c) && k1 < |c.shards| && k2 < |c.shards| && k1 != k2
    requires n in ChainOf(c, k1)
    ensures n !in ChainOf(c, k2)
  {
  }

  /** Shard k has not been swept yet: its nodes are as they were, and none is
      released. */
  ghost predicate Pending(c: Clients, p: Pass, shards: seq<Shard>, k: nat)
    requires WellLinked(c) && k < |c.shards| && |shards| == |c.shards|
  {
    && shards[k] == c.shards[k]
    && forall j :: 0 <= j < |ChainOf(c, k)| ==>
      ChainOf(c, k)[j] in p.heap && p.heap[ChainOf(c, k)[j]] == c.heap[ChainOf(c, k)[j]] && ChainOf(c, k)[j] !in p.released
  }

  /** Shard k has been swept: its head was checked, its list is SweptList, its
      head is not released, and exactly its stale nodes after the head are. */
  ghost predicate Done(c: Clients, p: Pass, shards: seq<Shard>, k: nat, lim: Limits, v: Variant)
    requires WellLinked(c) && k < |c.shards| && |shards| == |c.shards|
  {
    && shards[k] == (match c.shards[k].head
                     case None => c.shards[k]
                     case Some(hd) => HeadChecked(c.shards[k], c.heap[hd], lim))
    && ChainIs(p.heap, shards[k].head, SweptList(c, k, lim, v))
    && (|ChainOf(c, k)| > 0 ==> ChainOf(c, k)[0] !in p.released)
    && forall j :: 0 <= j < |Tail(c, k)| ==> (Tail(c, k)[j] in p.released <==> Stale(c.heap[Tail(c, k)[j]], lim))
  }

  /** The sweep of registry c after its first k shards. */
  ghost predicate SweepInv(c: Clients, p: Pass, shards: seq<Shard>, k: nat, lim: Limits, v: Variant)
  {
    && WellLinked(c) && Disjoint(c)
    && |shards| == |c.shards| && k <= |shards|
    && p.heap.Keys == c.heap.Keys
    && (forall n :: n in c.heap ==> SameRecord(p.heap[n], c.heap[n]))
    && (forall k' :: 0 <= k' < k ==> Done(c, p, shards, k', lim, v))
    && (forall k' :: k <= k' < |shards| ==> Pending(c, p, shards, k'))
    && p.log == RemovalsUpTo(c, k, lim)
    && (v == Intended ==> p.lateReads == 0)
  }

  /** Sweeping shard k touches no other shard's nodes and releases only its own. */
  ghost predicate StepFrame(c: Clients, p: Pass, p': Pass, k: nat)
    requires WellLinked(c) && k < |c.shards|
  {
    && p'.heap.Keys == p.heap.Keys
    && (forall n :: n in p.heap && n !in ChainOf(c, k) ==> p'.heap[n] == p.heap[n])
    && p.released <= p'.released
    && (forall n :: n in p'.released ==> n in p.released || n in ChainOf(c, k))
  }

  lemma DoneFrame(c: Clients, p: Pass, p': Pass, shards: seq<Shard>, shards': seq<Shard>, k: nat, k': nat,
                  lim: Limits, v: Variant)
    requires WellLinked(c) && Disjoint(c) && k < |c.shards| && k' < |c.shards| && k != k'
    requires |shards| == |c.shards| && |shards'| == |c.shards| && shards'[k'] == shards[k']
    requires StepFrame(c, p, p', k) && Done(c, p, shards, k', lim, v)
    ensures Done(c, p', shards', k', lim, v)
  {
    var sl := SweptList(c, k', lim, v);
    ChainIsLinks(p.heap, shards[k'].head, sl);
    forall i | 0 <= i < |sl|
      ensures sl[i] in p.heap && sl[i] in p'.heap && p'.heap[sl[i]].next == p.heap[sl[i]].next
    {
      DisjointIn(c, k', k, sl[i]);
    }
    ChainFrame(p.heap, p'.heap, shards[k'].head, sl);
    if |ChainOf(c, k')| > 0 {
      DisjointIn(c, k', k, ChainOf(c, k')[0]);
    }
    forall j | 0 <= j < |Tail(c, k')|
      ensures Tail(c, k')[j] in p'.released <==> Tail(c, k')[j] in p.released
    {
      DisjointIn(c, k', k, Tail(c, k')[j]);
    }
  }

  lemma PendingFrame(c: Clients, p: Pass, p': Pass, shards: seq<Shard>, shards': seq<Shard>, k: nat, k': nat)
    requires WellLinked(c) && Disjoint(c) && k < |c.shards| && k' < |c.shards| && k != k'
    requires |shards| == |c.shards| && |shards'| == |c.shards| && shards'[k'] == shards[k']
    requires StepFrame(c, p, p', k) && Pending(c, p, shards, k')
    ensures Pending(c, p', shards', k')
  {
    forall j | 0 <= j < |ChainOf(c, k')|
      ensures p'.heap[ChainOf(c, k')[j]] == p.heap[ChainOf(c, k')[j]] && ChainOf(c, k')[j] !in p'.released
    {
      DisjointIn(c, k', k, ChainOf(c, k')[j]);
    }
  }

  /** The intended sweep steps over an empty shard. */
  lemma SweepStepEmpty(c: Clients, p: Pass, shards: seq<Shard>, k: nat, lim: Limits)
    requires SweepInv(c, p, shards, k, lim, Intended) && k < |shards| && shards[k].head.None?
    ensures SweepFrom(p, shards, k, lim, Intended) == SweepFrom(p, shards, k + 1, lim, Intended)
    ensures SweepInv(c, p, shards, k + 1, lim, Intended)
  {
    SweepFromSkips(p, shards, k, lim);
    assert Pending(c, p, shards, k);
    assert Done(c, p, shards, k, lim, Intended) by {
      assert |ChainOf(c, k)| == 0 && |Tail(c, k)| == 0;
    }
    assert RemovalsUpTo(c, k + 1, lim) == RemovalsUpTo(c, k, lim) by {
      assert Removals(c.heap, Tail(c, k), lim) == [];
    }
  }

  /** The intended outer loop passes over an empty shard. */
  lemma SweepFromSkips(p: Pass, shards: seq<Shard>, k: nat, lim: Limits)
    requires k < |shards| && shards[k].head.None?
    ensures SweepFrom(p, shards, k, lim, Intended) == SweepFrom(p, shards, k + 1, lim, Intended)
  {
  }

  /** Sweeping a shard with a head keeps the invariant. */
  lemma SweepStepShard(c: Clients, p: Pass, shards: seq<Shard>, k: nat, lim: Limits, v: Variant)
    returns (p': Pass, shards': seq<Shard>)
    requires SweepInv(c, p, shards, k, lim, v) && k < |shards| && shards[k].head.Some?
    ensures |shards'| == |shards|
    ensures SweepFrom(p, shards, k, lim, v) == SweepFrom(p', shards', k + 1, lim, v)
    ensures SweepInv(c, p', shards', k + 1, lim, v)
  {
    assert Pending(c, p, shards, k);
    var hd := shards[k].head.value;
    var tl := Tail(c, k);
    PendingChain(c, p, shards, k);
    StepDone(c, p, shards, k, lim, v);
    StepFrameHolds(c, p, shards, k, lim, v);
    p' := LoopPass(p, hd, tl, lim, v);
    shards' := shards[k := HeadChecked(shards[k], p.heap[hd], lim)];
    StepOthers(c, p, p', shards, shards', k, lim, v);
  }

  lemma StepFrameHolds(c: Clients, p: Pass, shards: seq<Shard>, k: nat, lim: Limits, v: Variant)
    requires WellLinked(c) && |shards| == |c.shards| && k < |shards|
    requires Pending(c, p, shards, k) && shards[k].head.Some?
    requires Chain(p.heap, shards[k].head) == Some(ChainOf(c, k))
    requires forall n :: n in c.heap ==> n in p.heap && SameRecord(p.heap[n], c.heap[n])
    ensures shards[k].head.value in p.heap
    ensures StepFrame(c, p, LoopPass(p, shards[k].head.value, Tail(c, k), lim, v), k)
  {
    var hd := shards[k].head.value;
    ShardPass(c.heap, p, hd, Tail(c, k), lim, v);
    var p' := LoopPass(p, hd, Tail(c, k), lim, v);
    assert p.released <= p'.released by {
      match v
      case AsWritten =>
      case Intended =>
    }
  }

  /** A shard not yet swept still has the list it started with. */
  lemma PendingChain(c: Clients, p: Pass, shards: seq<Shard>, k: nat)
    requires WellLinked(c) && |shards| == |c.shards| && k < |shards| && Pending(c, p, shards, k)
    ensures Chain(p.heap, shards[k].head) == Some(ChainOf(c, k))
  {
    ChainCharacterized(c.heap, c.shards[k].head, ChainOf(c, k));
    ChainFrame(c.heap, p.heap, c.shards[k].head, ChainOf(c, k));
    ChainCharacterized(p.heap, c.shards[k].head, ChainOf(c, k));
  }

  /** The other shards keep their state across the sweep of shard k. */
  lemma StepOthers(c: Clients, p: Pass, p': Pass, shards: seq<Shard>, shards': seq<Shard>, k: nat, lim: Limits, v: Variant)
    requires WellLinked(c) && Disjoint(c) && |shards| == |c.shards| && |shards'| == |c.shards| && k < |shards|
    requires forall k' :: 0 <= k' < |shards| && k' != k ==> shards'[k'] == shards[k']
    requires StepFrame(c, p, p', k)
    requires forall k' :: 0 <= k' < k ==> Done(c, p, shards, k', lim, v)
    requires forall k' :: k < k' < |shards| ==> Pending(c, p, shards, k')
    ensures forall k' :: 0 <= k' < k ==> Done(c, p', shards', k', lim, v)
    ensures forall k' :: k < k' < |shards| ==> Pending(c, p', shards', k')
  {
    forall k' | 0 <= k' < k
      ensures Done(c, p', shards', k', lim, v)
    {
      DoneFrame(c, p, p', shards, shards', k, k', lim, v);
    }
    forall k' | k < k' < |shards|
      ensures Pending(c, p', shards', k')
    {
      PendingFrame(c, p, p', shards, shards', k, k');
    }
  }

  lemma StepDone(c: Clients, p: Pass, shards: seq<Shard>, k: nat, lim: Limits, v: Variant)
    requires WellLinked(c) && |shards| == |c.shards| && k < |shards|
    requires Pending(c, p, shards, k) && shards[k].head.Some?
    requires Chain(p.heap, shards[k].head) == Some(ChainOf(c, k))
    requires forall n :: n in c.heap ==> n in p.heap && SameRecord(p.heap[n], c.heap[n])
    ensures shards[k].head.value in p.heap
    ensures Done(c, LoopPass(p, shards[k].head.value, Tail(c, k), lim, v),
                 shards[k := HeadChecked(shards[k], p.heap[shards[k].head.value], lim)], k, lim, v)
    ensures LoopPass(p, shards[k].head.value, Tail(c, k), lim, v).log == p.log + Removals(c.heap, Tail(c, k), lim)
    ensures v == Intended ==> LoopPass(p, shards[k].head.value, Tail(c, k), lim, v).lateReads == p.lateReads
  {
    var hd := shards[k].head.value;
    var tl := Tail(c, k);
    ShardPass(c.heap, p, hd, tl, lim, v);
    var p' := LoopPass(p, hd, tl, lim, v);
    var shards' := shards[k := HeadChecked(shards[k], p.heap[hd], lim)];
    assert shards'[k] == HeadChecked(c.shards[k], c.heap[hd], lim);
    assert ChainIs(p'.heap, shards'[k].head, SweptList(c, k, lim, v));
    assert hd !in p'.released;
  }

  lemma SweepFromInv(c: Clients, p: Pass, shards: seq<Shard>, k: nat, lim: Limits, v: Variant)
    requires SweepInv(c, p, shards, k, lim, v)
    requires v == AsWritten ==> forall k' :: k <= k' < |shards| ==> shards[k'].head.Some?
    ensures SweepFrom(p, shards, k, lim, v).Swept?
    ensures SweepInv(c, SweepFrom(p, shards, k, lim, v).pass, SweepFrom(p, shards, k, lim, v).shards, |shards|, lim, v)
  {
    SweepFromInvAt(c, p, shards, k, lim, v, SweepFrom(p, shards, k, lim, v));
  }

  /** SweepFromInv with the sweep's result named. */
  lemma {:induction false} SweepFromInvAt(c: Clients, p: Pass, shards: seq<Shard>, k: nat, lim: Limits, v: Variant, r: Sweep)
    requires SweepInv(c, p, shards, k, lim, v)
    requires v == AsWritten ==> forall k' :: k <= k' < |shards| ==> shards[k'].head.Some?
    requires r == SweepFrom(p, shards, k, lim, v)
    ensures r.Swept? && SweepInv(c, r.pass, r.shards, |shards|, lim, v)
    decreases |shards| - k
  {
    if k == |shards| {
      assert r == Swept(p, shards);
    } else {
      if shards[k].head.None? {
        SweepStepEmpty(c, p, shards, k, lim);
        SweepFromInvAt(c, p, shards, k + 1, lim, v, r);
      } else {
        var p', shards' := SweepStepShard(c, p, shards, k, lim, v);
        forall k' | k + 1 <= k' < |shards'|
          ensures shards'[k'].head == shards[k'].head
        {
          assert Pending(c, p, shards, k') && Pending(c, p', shards', k');
        }
        SweepFromInvAt(c, p', shards', k + 1, lim, v, r);
      }
    }
  }

  lemma SweepStart(c: Clients, lim: Limits, v: Variant)
    requires WellLinked(c) && Disjoint(c) && NoneListedFreed(c)
    ensures SweepInv(c, Start(c), c.shards, 0, lim, v)
  {
  }

  /** Under the intended sweep no node still on a list is released. */
  lemma ListedNotReleased(c: Clients, p: Pass, shards: seq<Shard>, k: nat, lim: Limits)
    requires WellLinked(c) && k < |c.shards| && |shards| == |c.shards| && Done(c, p, shards, k, lim, Intended)
    ensures forall j :: 0 <= j < |SweptList(c, k, lim, Intended)| ==> SweptList(c, k, lim, Intended)[j] !in p.released
  {
    var sl := SweptList(c, k, lim, Intended);
    var tl := Tail(c, k);
    forall j | 0 <= j < |sl|
      ensures sl[j] !in p.released
    {
      if j > 0 {
        assert sl[j] in Fresh(c.heap, tl, lim);
        var i :| 0 <= i < |tl| && tl[i] == sl[j];
      }
    }
  }

  /** The intended sweep of a registry whose shards are NULL-terminated and
      share no node: every shard keeps its head, with the live flag cleared
      when the head is stale, followed by exactly its nodes that are not stale;
      exactly the stale nodes after the heads are released and none of them is
      still listed; one whitelist removal is queued per released client with a
      player, shard by shard in list order; and no released record is read. */
  lemma ClientsCheckTimeoutFixedSpec(c: Clients, now: int, timeout: int)
    requires WellLinked(c) && Disjoint(c) && NoneListedFreed(c) && timeout >= 0
    ensures ClientsCheckTimeoutFixed(c, now, timeout).Swept?
    ensures forall k :: 0 <= k < |c.shards| ==>
      ChainIs(ClientsCheckTimeoutFixed(c, now, timeout).pass.heap, ClientsCheckTimeoutFixed(c, now, timeout).shards[k].head,
              SweptList(c, k, ThresholdsIntended(now, timeout), Intended))
    ensures forall k :: 0 <= k < |c.shards| ==>
      ClientsCheckTimeoutFixed(c, now, timeout).shards[k].head == c.shards[k].head
    ensures forall k, j :: 0 <= k < |c.shards| && 0 <= j < |SweptList(c, k, ThresholdsIntended(now, timeout), Intended)| ==>
      SweptList(c, k, ThresholdsIntended(now, timeout), Intended)[j] !in ClientsCheckTimeoutFixed(c, now, timeout).pass.released
    ensures forall k, j :: 0 <= k < |c.shards| && 0 <= j < |Tail(c, k)| ==>
      (Tail(c, k)[j] in ClientsCheckTimeoutFixed(c, now, timeout).pass.released <==>
       Stale(c.heap[Tail(c, k)[j]], ThresholdsIntended(now, timeout)))
    ensures ClientsCheckTimeoutFixed(c, now, timeout).pass.log == RemovalsUpTo(c, |c.shards|, ThresholdsIntended(now, timeout))
    ensures ClientsCheckTimeoutFixed(c, now, timeout).pass.lateReads == 0
  {
    var lim := ThresholdsIntended(now, timeout);
    var p0 := Start(c);
    SweepStart(c, lim, Intended);
    SweepFromInv(c, p0, c.shards, 0, lim, Intended);
    var r := ClientsCheckTimeoutFixed(c, now, timeout);
    forall k | 0 <= k < |c.shards|
      ensures ChainIs(r.pass.heap, r.shards[k].head, SweptList(c, k, lim, Intended))
      ensures r.shards[k].head == c.shards[k].head
      ensures forall j :: 0 <= j < |SweptList(c, k, lim, Intended)| ==> SweptList(c, k, lim, Intended)[j] !in r.pass.released
      ensures forall j :: 0 <= j < |Tail(c, k)| ==> (Tail(c, k)[j] in r.pass.released <==> Stale(c.heap[Tail(c, k)[j]], lim))
    {
      assert Done(c, r.pass, r.shards, k, lim, Intended);
      ListedNotReleased(c, r.pass, r.shards, k, lim);
    }
  }

  /** The sweep as written, on a registry whose every shard has a head: it
      completes, every shard keeps its head followed by KeptAW of its other
      nodes, exactly the stale nodes after the heads are released, and the
      whitelist removals are queued as by the intended sweep. */
  lemma ClientsCheckTimeoutSpec(c: Clients, now: int, timeout: int)
    requires WellLinked(c) && Disjoint(c) && NoneListedFreed(c)
    requires forall k :: 0 <= k < |c.shards| ==> c.shards[k].head.Some?
    ensures ClientsCheckTimeout(c, now, timeout).Swept?
    ensures forall k :: 0 <= k < |c.shards| ==>
      ChainIs(ClientsCheckTimeout(c, now, timeout).pass.heap, ClientsCheckTimeout(c, now, timeout).shards[k].head,
              SweptList(c, k, Thresholds(now, timeout), AsWritten))
    ensures forall k, j :: 0 <= k < |c.shards| && 0 <= j < |Tail(c, k)| ==>
      (Tail(c, k)[j] in ClientsCheckTimeout(c, now, timeout).pass.released <==>
       Stale(c.heap[Tail(c, k)[j]], Thresholds(now, timeout)))
    ensures forall k :: 0 <= k < |c.shards| ==> ChainOf(c, k)[0] !in ClientsCheckTimeout(c, now, timeout).pass.released
    ensures ClientsCheckTimeout(c, now, timeout).pass.log == RemovalsUpTo(c, |c.shards|, Thresholds(now, timeout))
  {
    var lim := Thresholds(now, timeout);
    SweepStart(c, lim, AsWritten);
    SweepFromInv(c, Start(c), c.shards, 0, lim, AsWritten);
    var r := ClientsCheckTimeout(c, now, timeout);
    forall k | 0 <= k < |c.shards|
      ensures ChainIs(r.pass.heap, r.shards[k].head, SweptList(c, k, lim, AsWritten))
      ensures forall j :: 0 <= j < |Tail(c, k)| ==> (Tail(c, k)[j] in r.pass.released <==> Stale(c.heap[Tail(c, k)[j]], lim))
      ensures ChainOf(c, k)[0] !in r.pass.released
    {
      assert Done(c, r.pass, r.shards, k, lim, AsWritten);
    }
  }

  /** When the two nodes after a head are both stale, the sweep as written
      releases the second one and leaves it on the list: prev has moved onto
      the released first node, so unlinking the second changes a record no
      longer on the list. */
  lemma SweepKeepsReleasedNode(c: Clients, now: int, timeout: int, k: nat)
    requires WellLinked(c) && Disjoint(c) && NoneListedFreed(c)
    requires forall k' :: 0 <= k' < |c.shards| ==> c.shards[k'].head.Some?
    requires k < |c.shards| && |Tail(c, k)| >= 2
    requires Stale(c.heap[Tail(c, k)[0]], Thresholds(now, timeout)) && Stale(c.heap[Tail(c, k)[1]], Thresholds(now, timeout))
    ensures ClientsCheckTimeout(c, now, timeout).Swept?
    ensures Tail(c, k)[1] in ClientsCheckTimeout(c, now, timeout).pass.released
    ensures Tail(c, k)[1] in SweptList(c, k, Thresholds(now, timeout), AsWritten)
  {
    ClientsCheckTimeoutSpec(c, now, timeout);
    var tl := Tail(c, k);
    var lim := Thresholds(now, timeout);
    assert KeptAW(c.heap, tl, false, lim) == KeptAW(c.heap, tl[1..], true, lim);
    assert tl[1..][0] == tl[1];
  }

  // ---------------------------------------------------------------------
  // The registry across operations

  /** What every registry the gateway builds satisfies: NULL-terminated
      shards that share no node, and freed records that are records of the
      heap. */
  predicate Valid(c: Clients) {
    WellLinked(c) && Disjoint(c) && c.freed <= c.heap.Keys
  }

  /** The registry net_init allocates with calloc: `threads` shards as al_init
      leaves them, over an empty heap, nothing freed. */
  function NetClientsInit(threads: nat): (c: Clients)
    ensures |c.shards| == threads && c.freed == {}
    ensures forall k :: 0 <= k < threads ==> c.shards[k] == AlInit()
  {
    Clients(map[], seq(threads, _ => AlInit()), {}, {})
  }

  /** A fresh registry is valid and its shards are empty. */
  lemma NetClientsInitValid(threads: nat)
    ensures Valid(NetClientsInit(threads)) && NoneListedFreed(NetClientsInit(threads))
    ensures forall k :: 0 <= k < threads ==> ChainOf(NetClientsInit(threads), k) == []
  {
    var c := NetClientsInit(threads);
    forall k | 0 <= k < threads
      ensures Chain(c.heap, c.shards[k].head) == Some([])
    {
      AlInitIsEmpty(c.heap);
    }
  }

  /** client_add keeps a registry valid, and adds no freed record to a list:
      the new record comes from the allocator, so it is on no shard yet. */
  lemma ClientAddValid(c: Clients, t: nat, ip: u32, now: int, slot: NodeId)
    requires Valid(c) && t < |c.shards| && slot !in c.heap
    ensures Valid(ClientAdd(c, t, ip, now, slot))
    ensures NoneListedFreed(c) ==> NoneListedFreed(ClientAdd(c, t, ip, now, slot))
  {
    var r := ClientAdd(c, t, ip, now, slot);
    ClientAddChains(c, t, ip, now, slot);
    PushKeepsDisjoint(c, r, t, slot);
    PushKeepsNoneListed(c, r, t, slot);
  }

  /** Pushing a node that is on no list onto shard t keeps the shards
      disjoint. */
  lemma PushKeepsDisjoint(c: Clients, r: Clients, t: nat, slot: NodeId)
    requires WellLinked(c) && WellLinked(r) && Disjoint(c) && slot !in c.heap
    requires |r.shards| == |c.shards| && t < |c.shards|
    requires ChainOf(r, t) == [slot] + ChainOf(c, t)
    requires forall k :: 0 <= k < |c.shards| && k != t ==> ChainOf(r, k) == ChainOf(c, k)
    ensures Disjoint(r)
  {
    forall k1, k2, i, j |
      0 <= k1 < |r.shards| && 0 <= k2 < |r.shards| && k1 != k2 && 0 <= i < |ChainOf(r, k1)| && 0 <= j < |ChainOf(r, k2)|
      ensures ChainOf(r, k1)[i] != ChainOf(r, k2)[j]
    {
      if k1 == t {
        assert ChainOf(r, k1)[i] == if i == 0 then slot else ChainOf(c, k1)[i - 1];
      } else if k2 == t {
        assert ChainOf(r, k2)[j] == if j == 0 then slot else ChainOf(c, k2)[j - 1];
      }
    }
  }

  /** Pushing a node that is not freed onto shard t lists no freed record
      when none was listed. */
  lemma PushKeepsNoneListed(c: Clients, r: Clients, t: nat, slot: NodeId)
    requires WellLinked(c) && WellLinked(r) && c.freed <= c.heap.Keys && slot !in c.heap
    requires |r.shards| == |c.shards| && t < |c.shards| && r.freed == c.freed
    requires ChainOf(r, t) == [slot] + ChainOf(c, t)
    requires forall k :: 0 <= k < |c.shards| && k != t ==> ChainOf(r, k) == ChainOf(c, k)
    ensures NoneListedFreed(c) ==> NoneListedFreed(r)
  {
    if NoneListedFreed(c) {
      forall k, j | 0 <= k < |r.shards| && 0 <= j < |ChainOf(r, k)|
        ensures ChainOf(r, k)[j] !in r.freed
      {
        if k == t && j > 0 {
          assert ChainOf(r, k)[j] == ChainOf(c, k)[j - 1];
        }
      }
    }
  }

  /** net_accept keeps a registry valid, whichever way it decides. */
  lemma NetAcceptValid(c: Clients, thread: nat, ip: u32, now: int, slot: NodeId, v: Variant)
    requires Valid(c) && thread < |c.shards| && slot !in c.heap
    ensures NetAccept(c, thread, ip, now, slot, v).Accept? ==> Valid(NetAccept(c, thread, ip, now, slot, v).clients)
    ensures NoneListedFreed(c) && NetAccept(c, thread, ip, now, slot, v).Accept? ==>
      NoneListedFreed(NetAccept(c, thread, ip, now, slot, v).clients)
  {
    ClientAddValid(c, thread, ip, now, slot);
  }

  /** The registry a completed sweep leaves: its heap and shards, with the
      records it handed back added to the freed ones. */
  function SweptClients(r: Sweep): (c: Clients)
    requires r.Swept?
    ensures c.heap == r.pass.heap && c.shards == r.shards && c.freed == r.pass.released
    ensures c.playersFreed == r.pass.playersFreed
  {
    Clients(r.pass.heap, r.shards, r.pass.released, r.pass.playersFreed)
  }

  /** The registry after a completed sweep of either variant is valid: its
      shards are NULL-terminated, shard k holds exactly SweptList, so no node
      joins a second shard, and every freed record is still a heap record. */
  lemma SweptValid(c: Clients, r: Sweep, lim: Limits, v: Variant)
    requires Valid(c) && r.Swept? && |r.shards| == |c.shards|
    requires r.pass.heap.Keys == c.heap.Keys && c.freed <= r.pass.released && r.pass.released <= c.heap.Keys
    requires forall k :: 0 <= k < |c.shards| ==> ChainIs(r.pass.heap, r.shards[k].head, SweptList(c, k, lim, v))
    ensures Valid(SweptClients(r)) && c.freed <= SweptClients(r).freed
    ensures forall k :: 0 <= k < |c.shards| ==> ChainOf(SweptClients(r), k) == SweptList(c, k, lim, v)
  {
    var c' := SweptClients(r);
    forall k | 0 <= k < |c.shards|
      ensures Chain(c'.heap, c'.shards[k].head) == Some(SweptList(c, k, lim, v))
    {
      ChainCharacterized(c'.heap, c'.shards[k].head, SweptList(c, k, lim, v));
    }
    forall k1, k2, i, j |
      0 <= k1 < |c'.shards| && 0 <= k2 < |c'.shards| && k1 != k2 && 0 <= i < |ChainOf(c', k1)| && 0 <= j < |ChainOf(c', k2)|
      ensures ChainOf(c', k1)[i] != ChainOf(c', k2)[j]
    {
      assert ChainOf(c', k1)[i] in ChainOf(c, k1);
      DisjointIn(c, k1, k2, ChainOf(c', k1)[i]);
    }
  }

  /** The sweep as written, on a valid registry whose every shard has a head,
      completes and leaves a valid registry: the freed records grow, every
      shard keeps its head and holds SweptList, and no record changes besides
      its link. */
  lemma SweepKeepsValid(c: Clients, now: int, timeout: int)
    requires Valid(c) && NoneListedFreed(c)
    requires forall k :: 0 <= k < |c.shards| ==> c.shards[k].head.Some?
    ensures ClientsCheckTimeout(c, now, timeout).Swept?
    ensures Valid(SweptClients(ClientsCheckTimeout(c, now, timeout)))
    ensures c.freed <= SweptClients(ClientsCheckTimeout(c, now, timeout)).freed
    ensures forall k :: 0 <= k < |c.shards| ==>
      ChainOf(SweptClients(ClientsCheckTimeout(c, now, timeout)), k) == SweptList(c, k, Thresholds(now, timeout), AsWritten)
    ensures forall n :: n in c.heap ==> SameRecord(SweptClients(ClientsCheckTimeout(c, now, timeout)).heap[n], c.heap[n])
  {
    var lim := Thresholds(now, timeout);
    SweepStart(c, lim, AsWritten);
    SweepFromInv(c, Start(c), c.shards, 0, lim, AsWritten);
    SweepFromGrows(Start(c), c.shards, 0, lim, AsWritten);
    ClientsCheckTimeoutSpec(c, now, timeout);
    SweptValid(c, ClientsCheckTimeout(c, now, timeout), lim, AsWritten);
  }

  /** The intended sweep leaves a valid registry on which no freed record is
      listed, whatever its shards hold. */
  lemma SweepFixedKeepsValid(c: Clients, now: int, timeout: int)
    requires Valid(c) && NoneListedFreed(c) && timeout >= 0
    ensures ClientsCheckTimeoutFixed(c, now, timeout).Swept?
    ensures Valid(SweptClients(ClientsCheckTimeoutFixed(c, now, timeout)))
    ensures NoneListedFreed(SweptClients(ClientsCheckTimeoutFixed(c, now, timeout)))
    ensures c.freed <= SweptClients(ClientsCheckTimeoutFixed(c, now, timeout)).freed
    ensures forall k :: 0 <= k < |c.shards| ==>
      ChainOf(SweptClients(ClientsCheckTimeoutFixed(c, now, timeout)), k) ==
      SweptList(c, k, ThresholdsIntended(now, timeout), Intended)
  {
    var lim := ThresholdsIntended(now, timeout);
    ClientsCheckTimeoutFixedSpec(c, now, timeout);
    SweepFromGrows(Start(c), c.shards, 0, lim, Intended);
    SweptValid(c, ClientsCheckTimeoutFixed(c, now, timeout), lim, Intended);
  }

  /** The cut-offs as written move forward with time. */
  lemma ThresholdsGrow(now: int, now': int, timeout: int)
    requires now <= now'
    ensures Thresholds(now, timeout).remove <= Thresholds(now', timeout).remove
    ensures Thresholds(now, timeout).unbound <= Thresholds(now', timeout).unbound
  {
    var a, b := now - timeout, now' - timeout;
    var q, q' := CDiv(a, 3), CDiv(b, 3);
    if q > q' {
      assert q' + 1 <= q;
    }
  }

  /** A sweep as written that finds a freed record second on the first shard,
      stale, frees it again, reads it twice after the first free, and queues
      the whitelist removal of the player read from it first.  When that
      player was freed too, the removal is formatted from the freed player_t
      and free(player) runs on it a second time. */
  lemma SweepMeetsFreed(c: Clients, now: int, timeout: int, hd: NodeId, b: NodeId, rest: seq<NodeId>)
    requires |c.shards| > 0 && c.shards[0].head == Some(hd) && Chain(c.heap, Some(hd)) == Some([hd, b] + rest)
    requires b in c.heap && b in c.freed && hd !in c.freed && Stale(c.heap[b], Thresholds(now, timeout))
    ensures ClientsCheckTimeout(c, now, timeout).pass.doubleFrees >= 1
    ensures ClientsCheckTimeout(c, now, timeout).pass.lateReads >= 2
    ensures |Unlisting(c.heap[b].player)| <= |ClientsCheckTimeout(c, now, timeout).pass.log|
    ensures ClientsCheckTimeout(c, now, timeout).pass.log[..|Unlisting(c.heap[b].player)|] == Unlisting(c.heap[b].player)
    ensures b in c.playersFreed && c.heap[b].player.Some? ==> ClientsCheckTimeout(c, now, timeout).pass.playerDoubleFrees >= 1
  {
    var lim := Thresholds(now, timeout);
    var p0 := Start(c);
    var all := [hd, b] + rest;
    assert all[1..] == [b] + rest;
    ListShape(c.heap, hd, [b] + rest);
    RoundMeetsFreed(p0, hd, b, rest, lim);
    var l1 := LoopPass(p0, hd, all[1..], lim, AsWritten);
    var s := HeadChecked(c.shards[0], p0.heap[hd], lim);
    assert ClientsCheckTimeout(c, now, timeout) == SweepFrom(l1, c.shards[0 := s], 1, lim, AsWritten);
    SweepFromGrows(l1, c.shards[0 := s], 1, lim, AsWritten);
  }

  /** The inner loop part of SweepMeetsFreed, on shard 0 alone. */
  lemma RoundMeetsFreed(p0: Pass, hd: NodeId, b: NodeId, rest: seq<NodeId>, lim: Limits)
    requires hd in p0.heap && ChainIs(p0.heap, p0.heap[hd].next, [b] + rest)
    requires b in p0.released && hd !in p0.released && Stale(p0.heap[b], lim)
    requires p0.log == [] && p0.lateReads == 0 && p0.doubleFrees == 0
    ensures forall i :: 0 <= i < |[b] + rest| ==> ([b] + rest)[i] in p0.heap
    ensures LoopPass(p0, hd, [b] + rest, lim, AsWritten).doubleFrees >= 1
    ensures LoopPass(p0, hd, [b] + rest, lim, AsWritten).lateReads >= 2
    ensures Unlisting(p0.heap[b].player) <= LoopPass(p0, hd, [b] + rest, lim, AsWritten).log
    ensures b in p0.playersFreed && p0.heap[b].player.Some? ==> LoopPass(p0, hd, [b] + rest, lim, AsWritten).playerDoubleFrees >= 1
  {
    ChainCharacterized(p0.heap, p0.heap[hd].next, [b] + rest);
    assert ([b] + rest)[0] == b && ([b] + rest)[1..] == rest;
    var p1 := Visit(p0, hd, b);
    TailPassStep(p0, hd, [b] + rest, lim);
    var q := Release(p1, hd, b);
    assert AlRemove(p1.heap, hd, b)[b] == p0.heap[b];
    assert q.doubleFrees == 1 && q.lateReads >= 2;
    assert q.log == Unlisting(p0.heap[b].player);
  }

  lemma ConsTwo(s: seq<NodeId>, a: NodeId, t: seq<NodeId>, b: NodeId, rest: seq<NodeId>)
    requires s == [a] + t && t == [b] + rest
    ensures s == [a, b] + rest
  {
  }

  /** The first sweep's part of SecondSweepFreesAgain: shard 0 becomes its
      head, the released second node and the rest, with the head not freed. */
  lemma FirstSweepLeaves(c: Clients, now: int, timeout: int, r: Sweep, hd: NodeId, b: NodeId, rest: seq<NodeId>)
    requires Valid(c) && NoneListedFreed(c)
    requires forall k :: 0 <= k < |c.shards| ==> c.shards[k].head.Some?
    requires |c.shards| > 0 && |Tail(c, 0)| >= 2
    requires Stale(c.heap[Tail(c, 0)[0]], Thresholds(now, timeout)) && Stale(c.heap[Tail(c, 0)[1]], Thresholds(now, timeout))
    requires r == ClientsCheckTimeout(c, now, timeout)
    requires hd == ChainOf(c, 0)[0] && b == Tail(c, 0)[1]
    requires rest == KeptAW(c.heap, Tail(c, 0)[2..], false, Thresholds(now, timeout))
    ensures r.Swept? && Valid(SweptClients(r))
    ensures r.shards[0].head == Some(hd)
    ensures Chain(r.pass.heap, Some(hd)) == Some([hd, b] + rest)
    ensures b in r.pass.released && hd !in r.pass.released
    ensures b in c.heap && b in r.pass.heap && SameRecord(r.pass.heap[b], c.heap[b])
  {
    var lim := Thresholds(now, timeout);
    var tl := Tail(c, 0);
    assert r.Swept? && Valid(SweptClients(r)) && ChainOf(SweptClients(r), 0) == SweptList(c, 0, lim, AsWritten)
      && SameRecord(r.pass.heap[b], c.heap[b]) by {
      SweepKeepsValid(c, now, timeout);
    }
    var c1 := SweptClients(r);
    assert b in c1.freed && hd !in c1.freed by {
      ClientsCheckTimeoutSpec(c, now, timeout);
    }
    assert KeptAW(c.heap, tl, false, lim) == [b] + rest by {
      assert KeptAW(c.heap, tl, false, lim) == KeptAW(c.heap, tl[1..], true, lim);
      assert tl[1..][0] == b && tl[1..][1..] == tl[2..];
    }
    assert SweptList(c, 0, lim, AsWritten) == [hd] + KeptAW(c.heap, tl, false, lim);
    ConsTwo(ChainOf(c1, 0), hd, KeptAW(c.heap, tl, false, lim), b, rest);
  }

  /** Two stale rounds of the loop as written: the second stale node's
      player, if it has one, is freed. */
  lemma TwoRoundsFreePlayer(p: Pass, hd: NodeId, ns: seq<NodeId>, lim: Limits)
    requires hd in p.heap && |ns| >= 2 && forall i :: 0 <= i < |ns| ==> ns[i] in p.heap
    requires Stale(p.heap[ns[0]], lim) && Stale(p.heap[ns[1]], lim)
    ensures p.heap[ns[1]].player.Some? ==> ns[1] in LoopPass(p, hd, ns, lim, AsWritten).playersFreed
  {
    TailPassStep(p, hd, ns, lim);
    var q1 := Release(Visit(p, hd, ns[0]), hd, ns[0]);
    assert SameRecord(q1.heap[ns[1]], p.heap[ns[1]]);
    TailPassStep(q1, ns[0], ns[1..], lim);
  }

  /** The sweep as written over two stale nodes after the head of the first
      shard frees the player of the second, when it has one. */
  lemma FirstSweepFreesPlayer(c: Clients, now: int, timeout: int)
    requires WellLinked(c) && |c.shards| > 0 && |Tail(c, 0)| >= 2
    requires Stale(c.heap[Tail(c, 0)[0]], Thresholds(now, timeout)) && Stale(c.heap[Tail(c, 0)[1]], Thresholds(now, timeout))
    ensures c.heap[Tail(c, 0)[1]].player.Some? ==> Tail(c, 0)[1] in ClientsCheckTimeout(c, now, timeout).pass.playersFreed
  {
    var lim := Thresholds(now, timeout);
    var all, tl := ChainOf(c, 0), Tail(c, 0);
    var hd := all[0];
    assert all[1..] == tl;
    var p0 := Start(c);
    var s := HeadChecked(c.shards[0], p0.heap[hd], lim);
    assert ClientsCheckTimeout(c, now, timeout) == SweepFrom(LoopPass(p0, hd, tl, lim, AsWritten), c.shards[0 := s], 1, lim, AsWritten);
    TwoRoundsFreePlayer(p0, hd, tl, lim);
    SweepFromGrows(LoopPass(p0, hd, tl, lim, AsWritten), c.shards[0 := s], 1, lim, AsWritten);
  }

  /** The record the sweep as written leaves listed after freeing it is met
      again by the next sweep, at any later time: that sweep reads the freed
      record, frees it a second time, and queues the whitelist removal of its
      player again.  The record still points to the same player_t, which the
      first sweep freed when there was one: the removal is then formatted from
      freed memory and free(player) runs on it a second time. */
  lemma SecondSweepFreesAgain(c: Clients, now: int, now': int, timeout: int)
    requires Valid(c) && NoneListedFreed(c)
    requires forall k :: 0 <= k < |c.shards| ==> c.shards[k].head.Some?
    requires |c.shards| > 0 && |Tail(c, 0)| >= 2 && now <= now'
    requires Stale(c.heap[Tail(c, 0)[0]], Thresholds(now, timeout)) && Stale(c.heap[Tail(c, 0)[1]], Thresholds(now, timeout))
    ensures ClientsCheckTimeout(c, now, timeout).Swept?
    ensures var c1 := SweptClients(ClientsCheckTimeout(c, now, timeout));
      && Valid(c1) && Tail(c, 0)[1] in c1.freed && |ChainOf(c1, 0)| >= 2 && ChainOf(c1, 0)[1] == Tail(c, 0)[1]
      && var r2 := ClientsCheckTimeout(c1, now', timeout);
         && r2.pass.doubleFrees >= 1 && r2.pass.lateReads >= 2
         && c1.heap[Tail(c, 0)[1]].player == c.heap[Tail(c, 0)[1]].player
         && (c.heap[Tail(c, 0)[1]].player.Some? ==> Tail(c, 0)[1] in c1.playersFreed && r2.pass.playerDoubleFrees >= 1)
         && |Unlisting(c.heap[Tail(c, 0)[1]].player)| <= |r2.pass.log|
         && r2.pass.log[..|Unlisting(c.heap[Tail(c, 0)[1]].player)|] == Unlisting(c.heap[Tail(c, 0)[1]].player)
  {
    var r := ClientsCheckTimeout(c, now, timeout);
    var hd, b := ChainOf(c, 0)[0], Tail(c, 0)[1];
    var rest := KeptAW(c.heap, Tail(c, 0)[2..], false, Thresholds(now, timeout));
    assert r.Swept? && Valid(SweptClients(r)) && r.shards[0].head == Some(hd)
      && Chain(r.pass.heap, Some(hd)) == Some([hd, b] + rest)
      && b in r.pass.released && hd !in r.pass.released
      && SameRecord(r.pass.heap[b], c.heap[b]) by {
      FirstSweepLeaves(c, now, timeout, r, hd, b, rest);
    }
    var c1 := SweptClients(r);
    FirstSweepFreesPlayer(c, now, timeout);
    assert ChainOf(c1, 0) == [hd, b] + rest && ([hd, b] + rest)[1] == b;
    assert Stale(c1.heap[b], Thresholds(now', timeout)) by {
      ThresholdsGrow(now, now', timeout);
    }
    SweepMeetsFreed(c1, now', timeout, hd, b, rest);
  }
}
