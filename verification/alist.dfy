/** The shard lists of atomic_list.h, read sequentially: a shard is a head
    pointer and a flag saying whether the head is live, and the nodes are
    client records linked through their `next` field.  Memory is an explicit
    heap from node addresses to records; NULL is `None`. */
module AtomicList {
  import opened Base

  /** The address of a client record. */
  type NodeId = nat

  /** player_t: the account bound to an address after a successful login. */
  datatype Player = Player(name: seq<char>, zt: int, server: nat)

  /** client_t: an address the gateway has accepted a connection from. */
  datatype Client = Client(ip: u32, conntime: int, player: Option<Player>, next: Option<NodeId>)

  type Heap = map<NodeId, Client>

  /** atomic_list_t. */
  datatype Shard = Shard(head: Option<NodeId>, headValid: bool)

  // ---------------------------------------------------------------------
  // The nodes reachable from a pointer.

  /** ns is the list of nodes met by following `next` from p up to NULL. */
  predicate ChainIs(h: Heap, p: Option<NodeId>, ns: seq<NodeId>)
    decreases |ns|
  {
    if |ns| == 0 then p == None
    else p == Some(ns[0]) && ns[0] in h && ChainIs(h, h[ns[0]].next, ns[1..])
  }

  predicate Distinct(ns: seq<NodeId>) {
    forall i, j :: 0 <= i < j < |ns| ==> ns[i] != ns[j]
  }

  /** Follows `next` from p, refusing to enter a node twice or to leave the
      heap: the chain of a well-formed list, or None for a cyclic or dangling one. */
  function ChainFrom(h: Heap, p: Option<NodeId>, visited: set<NodeId>): (r: Option<seq<NodeId>>)
    ensures r.Some? ==> forall i :: 0 <= i < |r.value| ==> r.value[i] in h
    ensures r.Some? ==> (|r.value| == 0 <==> p.None?)
    ensures r.Some? && |r.value| > 0 ==> p == Some(r.value[0])
    decreases h.Keys - visited
  {
    match p
    case None => Some([])
    case Some(n) =>
      if n !in h || n in visited then None
      else
        match ChainFrom(h, h[n].next, visited + {n})
        case None => None
        case Some(ns) => Some([n] + ns)
  }

  /** The nodes of the list starting at p, if it is a NULL-terminated list. */
  function Chain(h: Heap, p: Option<NodeId>): (r: Option<seq<NodeId>>)
    ensures r.Some? ==> forall i :: 0 <= i < |r.value| ==> r.value[i] in h
    ensures r.Some? ==> (|r.value| == 0 <==> p.None?)
    ensures r.Some? && |r.value| > 0 ==> p == Some(r.value[0])
  {
    ChainFrom(h, p, {})
  }

  lemma {:induction false} ChainFromSound(h: Heap, p: Option<NodeId>, visited: set<NodeId>)
    requires ChainFrom(h, p, visited).Some?
    ensures ChainIs(h, p, ChainFrom(h, p, visited).value)
    ensures Distinct(ChainFrom(h, p, visited).value)
    ensures forall i :: 0 <= i < |ChainFrom(h, p, visited).value| ==>
      ChainFrom(h, p, visited).value[i] !in visited
    decreases h.Keys - visited
  {
    if p.Some? {
      var n := p.value;
      var rest := ChainFrom(h, h[n].next, visited + {n}).value;
      ChainFromSound(h, h[n].next, visited + {n});
      var ns := [n] + rest;
      assert ns[1..] == rest;
    }
  }

  lemma {:induction false} ChainIsSuffix(h: Heap, p: Option<NodeId>, ns: seq<NodeId>, i: nat)
    requires ChainIs(h, p, ns) && i < |ns|
    ensures ChainIs(h, Some(ns[i]), ns[i..])
    decreases i
  {
    if i > 0 {
      ChainIsSuffix(h, h[ns[0]].next, ns[1..], i - 1);
      assert ns[1..][i - 1..] == ns[i..];
    }
  }

  /** A pointer determines its chain. */
  lemma {:induction false} ChainIsUnique(h: Heap, p: Option<NodeId>, a: seq<NodeId>, b: seq<NodeId>)
    requires ChainIs(h, p, a) && ChainIs(h, p, b)
    ensures a == b
    decreases |a|
  {
    if |a| > 0 {
      ChainIsUnique(h, h[a[0]].next, a[1..], b[1..]);
      assert a == [a[0]] + a[1..] && b == [b[0]] + b[1..];
    }
  }

  /** A NULL-terminated chain never meets a node twice. */
  lemma ChainIsDistinct(h: Heap, p: Option<NodeId>, ns: seq<NodeId>)
    requires ChainIs(h, p, ns)
    ensures Distinct(ns)
  {
    forall i, j | 0 <= i < j < |ns| ensures ns[i] != ns[j] {
      if ns[i] == ns[j] {
        ChainIsSuffix(h, p, ns, i);
        ChainIsSuffix(h, p, ns, j);
        ChainIsUnique(h, Some(ns[i]), ns[i..], ns[j..]);
      }
    }
  }

  lemma {:induction false} ChainFromComplete(h: Heap, p: Option<NodeId>, ns: seq<NodeId>, visited: set<NodeId>)
    requires ChainIs(h, p, ns) && Distinct(ns)
    requires forall i :: 0 <= i < |ns| ==> ns[i] !in visited
    ensures ChainFrom(h, p, visited) == Some(ns)
    decreases |ns|
  {
    if |ns| > 0 {
      var n := ns[0];
      forall i | 0 <= i < |ns[1..]| ensures ns[1..][i] !in visited + {n} {
        assert ns[1..][i] == ns[i + 1];
      }
      ChainFromComplete(h, h[n].next, ns[1..], visited + {n});
      assert ns == [n] + ns[1..];
    }
  }

  /** Chain computes exactly the NULL-terminated chains. */
  lemma ChainCharacterized(h: Heap, p: Option<NodeId>, ns: seq<NodeId>)
    ensures Chain(h, p) == Some(ns) <==> ChainIs(h, p, ns)
  {
    if Chain(h, p) == Some(ns) {
      ChainFromSound(h, p, {});
    }
    if ChainIs(h, p, ns) {
      ChainIsDistinct(h, p, ns);
      ChainFromComplete(h, p, ns, {});
    }
  }

  /** Each node of a chain points at the next one, and the last at NULL. */
  lemma {:induction false} ChainIsLinks(h: Heap, p: Option<NodeId>, ns: seq<NodeId>)
    requires ChainIs(h, p, ns)
    ensures forall j :: 0 <= j < |ns| ==> ns[j] in h
    ensures forall j :: 0 <= j < |ns| - 1 ==> h[ns[j]].next == Some(ns[j + 1])
    ensures |ns| > 0 ==> h[ns[|ns| - 1]].next == None
    decreases |ns|
  {
    if |ns| > 0 {
      var tl := ns[1..];
      ChainIsLinks(h, h[ns[0]].next, tl);
      assert forall j :: 0 <= j < |tl| ==> tl[j] == ns[j + 1];
    }
  }

  /** A chain only depends on the `next` fields of its own nodes. */
  lemma {:induction false} ChainFrame(h: Heap, h': Heap, p: Option<NodeId>, ns: seq<NodeId>)
    requires ChainIs(h, p, ns)
    requires forall i :: 0 <= i < |ns| ==> ns[i] in h && ns[i] in h' && h'[ns[i]].next == h[ns[i]].next
    ensures ChainIs(h', p, ns)
    decreases |ns|
  {
    if |ns| > 0 {
      ChainFrame(h, h', h[ns[0]].next, ns[1..]);
    }
  }

  // ---------------------------------------------------------------------
  // The list operations.

  /** al_init: an empty list whose (absent) head is not live. */
  function AlInit(): Shard {
    Shard(None, false)
  }

  /** al_head. */
  function AlHead(s: Shard): Option<NodeId> {
    s.head
  }

  /** al_head_valid. */
  function AlHeadValid(s: Shard): bool {
    s.headValid
  }

  /** al_next. */
  function AlNext(h: Heap, n: NodeId): Option<NodeId>
    requires n in h
  {
    h[n].next
  }

  /** al_set_next. */
  function AlSetNext(h: Heap, n: NodeId, next: Option<NodeId>): (h': Heap)
    requires n in h
    ensures h'.Keys == h.Keys
    ensures forall m :: m in h && m != n ==> h'[m] == h[m]
  {
    h[n := h[n].(next := next)]
  }

  /** al_push: obj becomes the head and points at the old head. */
  function AlPush(h: Heap, s: Shard, obj: NodeId): (r: (Heap, Shard))
    requires obj in h
    ensures r.0.Keys == h.Keys
    ensures forall m :: m in h && m != obj ==> r.0[m] == h[m]
    ensures r.0[obj].ip == h[obj].ip && r.0[obj].conntime == h[obj].conntime
    ensures r.0[obj].player == h[obj].player
    ensures r.1.headValid == s.headValid
  {
    (AlSetNext(h, obj, AlHead(s)), s.(head := Some(obj)))
  }

  /** al_remove: prev skips over obj.  The shard is not an argument, so the
      head pointer cannot change. */
  function AlRemove(h: Heap, prev: NodeId, obj: NodeId): (h': Heap)
    requires prev in h && obj in h
    ensures h'.Keys == h.Keys
    ensures forall m :: m in h && m != prev ==> h'[m] == h[m]
    ensures h'[prev].ip == h[prev].ip && h'[prev].conntime == h[prev].conntime
    ensures h'[prev].player == h[prev].player
  {
    AlSetNext(h, prev, AlNext(h, obj))
  }

  /** A fresh list is empty and its head is not live. */
  lemma AlInitIsEmpty(h: Heap)
    ensures Chain(h, AlHead(AlInit())) == Some([])
    ensures !AlHeadValid(AlInit())
  {
  }

  /** After a push the list is the pushed node followed by the old list. */
  lemma AlPushChain(h: Heap, s: Shard, obj: NodeId, ns: seq<NodeId>)
    requires obj in h && Chain(h, s.head) == Some(ns) && obj !in ns
    ensures Chain(AlPush(h, s, obj).0, AlPush(h, s, obj).1.head) == Some([obj] + ns)
  {
    var (h', s') := AlPush(h, s, obj);
    ChainCharacterized(h, s.head, ns);
    ChainFrame(h, h', s.head, ns);
    assert ([obj] + ns)[1..] == ns;
    ChainCharacterized(h', s'.head, [obj] + ns);
  }

  lemma {:induction false} RemoveChainIs(h: Heap, p: Option<NodeId>, ns: seq<NodeId>, i: nat)
    requires ChainIs(h, p, ns) && Distinct(ns) && i + 1 < |ns|
    requires forall k :: 0 <= k < |ns| ==> ns[k] in h
    ensures ChainIs(AlRemove(h, ns[i], ns[i + 1]), p, ns[..i + 1] + ns[i + 2..])
    decreases i
  {
    var h' := AlRemove(h, ns[i], ns[i + 1]);
    if i == 0 {
      var rest := ns[2..];
      ChainIsSuffix(h, p, ns, 1);
      assert ns[1..][1..] == rest;
      forall k | 0 <= k < |rest| ensures rest[k] in h && rest[k] in h' && h'[rest[k]].next == h[rest[k]].next {
        assert rest[k] == ns[k + 2];
      }
      ChainFrame(h, h', h[ns[1]].next, rest);
      assert (ns[..1] + rest)[1..] == rest;
    } else {
      var tl := ns[1..];
      assert Distinct(tl) by {
        forall a, b | 0 <= a < b < |tl| ensures tl[a] != tl[b] {
          assert tl[a] == ns[a + 1] && tl[b] == ns[b + 1];
        }
      }
      assert tl[i - 1] == ns[i] && tl[i] == ns[i + 1];
      RemoveChainIs(h, h[ns[0]].next, tl, i - 1);
      assert ns[0] != ns[i];
      assert (ns[..i + 1] + ns[i + 2..])[1..] == tl[..i] + tl[i + 1..];
    }
  }

  /** al_remove on consecutive nodes removes exactly the second one and keeps
      the others in order; the first node of the list stays first. */
  lemma AlRemoveChain(h: Heap, p: Option<NodeId>, ns: seq<NodeId>, i: nat)
    requires Chain(h, p) == Some(ns) && i + 1 < |ns|
    ensures Chain(AlRemove(h, ns[i], ns[i + 1]), p) == Some(ns[..i + 1] + ns[i + 2..])
    ensures (ns[..i + 1] + ns[i + 2..])[0] == ns[0]
  {
    ChainCharacterized(h, p, ns);
    ChainIsDistinct(h, p, ns);
    RemoveChainIs(h, p, ns, i);
    ChainCharacterized(AlRemove(h, ns[i], ns[i + 1]), p, ns[..i + 1] + ns[i + 2..]);
  }
}
