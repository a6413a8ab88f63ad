/**
 The server's shared tables and the handlers that change them, interleaved step by step
 (vpn_server/internal/server: masque_handler.go, api_server.go, packet_processor.go).
 One step is one critical section; REST DELETE is two, because it releases the address
 after giving up the lock.
 */
module ServerState {

  import opened Address
  import opened AddressRange
  import opened Allocation
  import opened Bytes
  import opened IpPackets
  import opened Wrappers

  /** A client session; a handler creates exactly one and shares its number. */
  type SessionId = nat

  /** IPPool, ClientIPMap, IPConnMap, and the sessions whose connection was closed. */
  datatype Shared = Shared(
    pool: Pool,
    clientIP: map<ClientId, Addr>,
    ipConn: map<Addr, SessionId>,
    closed: set<SessionId>)

  // -------------------------------------------------------- critical sections

  /** assignIPToClient gives a client the address it already has, or a free one. */
  function Lease(s: Shared, c: ClientId): Option<Addr> {
    if c in s.clientIP then Some(s.clientIP[c]) else Offered(s.pool)
  }

  predicate Allocates(s: Shared, c: ClientId) {
    c !in s.clientIP && s.pool.available != []
  }

  function Assigned(s: Shared, c: ClientId): Shared {
    if Allocates(s, c) then s.(pool := Allocated(s.pool, c), clientIP := s.clientIP[c := s.pool.available[0]]) else s
  }

  function Attached(s: Shared, a: Addr, id: SessionId): Shared {
    s.(ipConn := s.ipConn[a := id])
  }

  /** Closes and removes whatever session is registered for a. */
  function Unrouted(s: Shared, a: Addr): Shared {
    if a in s.ipConn then s.(ipConn := s.ipConn - {a}, closed := s.closed + {s.ipConn[a]}) else s
  }

  function CleanedUp(s: Shared, c: ClientId, a: Addr): Shared {
    Unrouted(s, a).(clientIP := s.clientIP - {c}, pool := Released(s.pool, a))
  }

  function Disconnected(s: Shared, c: ClientId): Shared
    requires c in s.clientIP
  {
    Unrouted(s, s.clientIP[c]).(clientIP := s.clientIP - {c})
  }

  // --------------------------------------------------------------- the system

  /** A running handleMASQUERequest: after assigning, and later after attaching its session. */
  datatype Handler = Handler(client: ClientId, addr: Addr, attached: bool)

  /** deletes holds the addresses that DELETEs between their two steps are about to release. */
  datatype World = World(
    shared: Shared,
    handlers: map<SessionId, Handler>,
    deletes: map<nat, Addr>,
    nextId: nat,
    allocations: nat)

  datatype Step =
    | Connect(client: ClientId)
    | Attach(handler: SessionId)
    | Finish(handler: SessionId)
    | StartDelete(client: ClientId)
    | FinishDelete(id: nat)

  /** One step; a step that cannot happen leaves the world alone. */
  function Next(w: World, step: Step): World {
    match step
    case Connect(c) =>
      var lease := Lease(w.shared, c);
      if lease.None? then w
      else
        w.(shared := Assigned(w.shared, c),
           handlers := w.handlers[w.nextId := Handler(c, lease.value, false)],
           nextId := w.nextId + 1,
           allocations := w.allocations + if Allocates(w.shared, c) then 1 else 0)
    case Attach(h) =>
      if h !in w.handlers || w.handlers[h].attached then w
      else
        w.(shared := Attached(w.shared, w.handlers[h].addr, h),
           handlers := w.handlers[h := w.handlers[h].(attached := true)])
    case Finish(h) =>
      if h !in w.handlers || !w.handlers[h].attached then w
      else
        w.(shared := CleanedUp(w.shared, w.handlers[h].client, w.handlers[h].addr), handlers := w.handlers - {h})
    case StartDelete(c) =>
      if c !in w.shared.clientIP then w
      else
        w.(shared := Disconnected(w.shared, c),
           deletes := w.deletes[w.nextId := w.shared.clientIP[c]],
           nextId := w.nextId + 1)
    case FinishDelete(d) =>
      if d !in w.deletes then w
      else
        w.(shared := w.shared.(pool := Released(w.shared.pool, w.deletes[d])), deletes := w.deletes - {d})
  }

  /** The world after the first k steps. */
  function At(w: World, steps: seq<Step>, k: nat): World
    requires k <= |steps|
  {
    if k == 0 then w else Next(At(w, steps, k - 1), steps[k - 1])
  }

  /** A server just started with these free addresses. */
  function Start(addresses: seq<Addr>): World {
    World(Shared(Pool(addresses, map[]), map[], map[], {}), map[], map[], 0, 0)
  }

  // ---------------------------------------------- what holds in every interleaving

  predicate Names(w: World, h: SessionId, a: Addr) {
    h in w.handlers && w.handlers[h].addr == a
  }

  predicate Serves(w: World, h: SessionId, c: ClientId, a: Addr) {
    h in w.handlers && w.handlers[h].client == c && w.handlers[h].addr == a
  }

  predicate Owns(w: World, c: ClientId, a: Addr) {
    c in w.shared.clientIP && w.shared.clientIP[c] == a
  }

  /** Every leased address, for the client it is leased to, and every client entry is backed by a live handler. */
  ghost predicate NoLeak(w: World) {
    && (forall a | a in w.shared.pool.leased :: exists h :: Serves(w, h, w.shared.pool.leased[a], a))
    && (forall c | c in w.shared.clientIP :: exists h :: Serves(w, h, c, w.shared.clientIP[c]))
  }

  /** Every registered session belongs to a live, attached handler of that address and is open. */
  predicate RoutesLive(w: World) {
    forall a | a in w.shared.ipConn ::
      var h := w.shared.ipConn[a];
      Names(w, h, a) && w.handlers[h].attached && h !in w.shared.closed
  }

  /** Numbers are handed out once, and no session is closed before it is attached. */
  predicate FreshIds(w: World) {
    && (forall h | h in w.handlers :: h < w.nextId && (w.handlers[h].attached || h !in w.shared.closed))
    && (forall d | d in w.deletes :: d < w.nextId)
    && (forall h | h in w.shared.closed :: h < w.nextId)
  }

  ghost predicate Inv(w: World, all: set<Addr>) {
    Partition(w.shared.pool, all) && NoLeak(w) && RoutesLive(w) && FreshIds(w)
  }

  lemma PartitionStep(w: World, step: Step, all: set<Addr>)
    requires Partition(w.shared.pool, all)
    ensures Partition(Next(w, step).shared.pool, all)
  {
    match step
    case Connect(c) => AllocateKeepsPartition(w.shared.pool, c, all);
    case Attach(h) =>
    case Finish(h) => if h in w.handlers { ReleaseKeepsPartition(w.shared.pool, w.handlers[h].addr, all); }
    case StartDelete(c) =>
    case FinishDelete(d) => if d in w.deletes { ReleaseKeepsPartition(w.shared.pool, w.deletes[d], all); }
  }

  lemma RoutesStep(w: World, step: Step)
    requires RoutesLive(w) && FreshIds(w)
    ensures RoutesLive(Next(w, step))
  {
  }

  lemma FreshIdsStep(w: World, step: Step)
    requires RoutesLive(w) && FreshIds(w)
    ensures FreshIds(Next(w, step))
  {
  }

  lemma LeasesBacked(w: World, step: Step, a: Addr, all: set<Addr>) returns (h: SessionId)
    requires NoLeak(w) && FreshIds(w) && Partition(w.shared.pool, all) && a in Next(w, step).shared.pool.leased
    ensures Serves(Next(w, step), h, Next(w, step).shared.pool.leased[a], a)
  {
    if a in w.shared.pool.leased {
      h :| Serves(w, h, w.shared.pool.leased[a], a);
    } else {
      h := w.nextId;
    }
  }

  lemma EntriesBacked(w: World, step: Step, c: ClientId) returns (h: SessionId)
    requires NoLeak(w) && FreshIds(w) && c in Next(w, step).shared.clientIP
    ensures Serves(Next(w, step), h, c, Next(w, step).shared.clientIP[c])
  {
    if c in w.shared.clientIP {
      h :| Serves(w, h, c, w.shared.clientIP[c]);
    } else {
      h := w.nextId;
    }
  }

  lemma NoLeakStep(w: World, step: Step, all: set<Addr>)
    requires NoLeak(w) && FreshIds(w) && Partition(w.shared.pool, all)
    ensures NoLeak(Next(w, step))
  {
    hide Next, FreshIds, Partition;
    var v := Next(w, step);
    forall a | a in v.shared.pool.leased
      ensures exists h :: Serves(v, h, v.shared.pool.leased[a], a)
    {
      var h := LeasesBacked(w, step, a, all);
    }
    forall c | c in v.shared.clientIP
      ensures exists h :: Serves(v, h, c, v.shared.clientIP[c])
    {
      var h := EntriesBacked(w, step, c);
    }
  }

  lemma InvStep(w: World, step: Step, all: set<Addr>)
    requires Inv(w, all)
    ensures Inv(Next(w, step), all)
  {
    hide Next, Partition, NoLeak, RoutesLive, FreshIds;
    PartitionStep(w, step, all);
    RoutesStep(w, step);
    FreshIdsStep(w, step);
    NoLeakStep(w, step, all);
  }

  // In every interleaving of connects, attaches, handler ends and DELETEs: the pool stays
  // partitioned, nothing leaks, and routed sessions are live and open.
  lemma {:induction false} AlwaysInv(w: World, steps: seq<Step>, k: nat, all: set<Addr>)
    requires Inv(w, all) && k <= |steps|
    ensures Inv(At(w, steps, k), all)
  {
    hide Next, Inv;
    if k > 0 {
      AlwaysInv(w, steps, k - 1, all);
      InvStep(At(w, steps, k - 1), steps[k - 1], all);
    }
  }

  lemma {:induction false} Multiplicity(s: seq<Addr>, a: Addr)
    requires NoDuplicates(s)
    ensures multiset(s)[a] == if a in s then 1 else 0
  {
    if s != [] {
      var front, last := s[..|s| - 1], s[|s| - 1];
      assert s == front + [last];
      Multiplicity(front, a);
    }
  }

  lemma SameElements(s: seq<Addr>, t: seq<Addr>)
    requires NoDuplicates(s) && NoDuplicates(t) && forall a :: a in s <==> a in t
    ensures multiset(s) == multiset(t)
  {
    forall a
      ensures multiset(s)[a] == multiset(t)[a]
    {
      Multiplicity(s, a);
      Multiplicity(t, a);
    }
  }

  // Once no handler is left, both tables are empty and the free addresses are a
  // permutation of the ones the server started with.
  lemma AllReturned(addresses: seq<Addr>, steps: seq<Step>)
    requires NoDuplicates(addresses) && At(Start(addresses), steps, |steps|).handlers == map[]
    ensures var s := At(Start(addresses), steps, |steps|).shared;
      && s.clientIP == map[] && s.ipConn == map[] && s.pool.leased == map[]
      && multiset(s.pool.available) == multiset(addresses)
  {
    var all := set a | a in addresses;
    AlwaysInv(Start(addresses), steps, |steps|, all);
    var w := At(Start(addresses), steps, |steps|);
    forall h: SessionId, a
      ensures !Names(w, h, a)
    {
    }
    assert forall c, a, h: SessionId :: !Serves(w, h, c, a);
    SameElements(w.shared.pool.available, addresses);
  }

  /** Each client has an address of its own, and the pool counts it as leased. */
  ghost predicate Owned(w: World) {
    && (forall c, d | c in w.shared.clientIP && d in w.shared.clientIP ::
         w.shared.clientIP[c] == w.shared.clientIP[d] ==> c == d)
    && (forall c | c in w.shared.clientIP :: w.shared.clientIP[c] in w.shared.pool.leased)
  }

  /**
   Besides, every live handler of an owned address is its owner's, and no DELETE under way is
   about to release one.
   */
  ghost predicate Isolated(w: World) {
    && Owned(w)
    && (forall c, h | c in w.shared.clientIP && Names(w, h, w.shared.clientIP[c]) :: w.handlers[h].client == c)
    && (forall c, d | c in w.shared.clientIP && d in w.deletes :: w.deletes[d] != w.shared.clientIP[c])
  }

  // The pool of any CIDR block gives a server a starting world in which all this holds.
  lemma ServerStart(cidr: Prefix)
    requires cidr.Valid() && !AllOnes(Last(Masked(cidr.addr.bytes, cidr.bits), cidr.bits))
    ensures var info := NetworkOf(cidr);
      var addresses := PoolAddresses(info.prefix, info.gateway.addr);
      NoDuplicates(addresses) && Inv(Start(addresses), set a | a in addresses) && Isolated(Start(addresses))
  {
    ServerPoolSize(cidr);
  }

  // ------------------------------------------------------------------ isolation

  /**
   The step does not lease out an address that another client's live handler, or a DELETE
   under way, still names.
   */
  predicate Safe(w: World, step: Step) {
    step.Connect? && Allocates(w.shared, step.client) ==>
      var a := w.shared.pool.available[0];
      && (forall h | h in w.handlers :: w.handlers[h].addr == a ==> w.handlers[h].client == step.client)
      && (forall d | d in w.deletes :: w.deletes[d] != a)
  }

  lemma SafeConnect(w: World, c: ClientId)
    requires Isolated(w) && FreshIds(w) && Safe(w, Connect(c))
    requires forall i | 0 <= i < |w.shared.pool.available| :: w.shared.pool.available[i] !in w.shared.pool.leased
    ensures Isolated(Next(w, Connect(c)))
  {
  }

  lemma IsolatedConnect(w: World, c: ClientId)
    requires FreshIds(w) && Isolated(Next(w, Connect(c)))
    ensures Safe(w, Connect(c))
  {
    var v := Next(w, Connect(c));
    if Allocates(w.shared, c) {
      var a := w.shared.pool.available[0];
      forall h | h in w.handlers && w.handlers[h].addr == a
        ensures w.handlers[h].client == c
      {
        assert Names(v, h, v.shared.clientIP[c]);
      }
      forall d | d in w.deletes
        ensures w.deletes[d] != a
      {
        assert d in v.deletes && c in v.shared.clientIP;
      }
    }
  }

  lemma ConnectIsolation(w: World, c: ClientId, all: set<Addr>)
    requires Isolated(w) && Inv(w, all)
    ensures Isolated(Next(w, Connect(c))) <==> Safe(w, Connect(c))
  {
    hide Next, Isolated, Safe, NoLeak, RoutesLive, FreshIds;
    if Safe(w, Connect(c)) {
      SafeConnect(w, c);
    }
    if Isolated(Next(w, Connect(c))) {
      IsolatedConnect(w, c);
    }
  }

  lemma AttachIsolation(w: World, h: SessionId)
    requires Isolated(w)
    ensures Isolated(Next(w, Attach(h)))
  {
  }

  lemma FinishIsolation(w: World, h: SessionId)
    requires Isolated(w)
    ensures Isolated(Next(w, Finish(h)))
  {
  }

  lemma StartDeleteIsolation(w: World, c: ClientId)
    requires Isolated(w)
    ensures Isolated(Next(w, StartDelete(c)))
  {
  }

  lemma FinishDeleteIsolation(w: World, d: nat)
    requires Isolated(w)
    ensures Isolated(Next(w, FinishDelete(d)))
  {
  }

  // An allocation keeps isolation exactly when it is safe; all other steps always do.
  lemma IsolationStep(w: World, step: Step, all: set<Addr>)
    requires Inv(w, all) && Isolated(w)
    ensures Isolated(Next(w, step)) <==> Safe(w, step)
  {
    match step
    case Connect(c) => ConnectIsolation(w, c, all);
    case Attach(h) => AttachIsolation(w, h);
    case Finish(h) => FinishIsolation(w, h);
    case StartDelete(c) => StartDeleteIsolation(w, c);
    case FinishDelete(d) => FinishDeleteIsolation(w, d);
  }

  // While isolation holds, the pool has every owned address leased to its owner.
  lemma LeasedToOwner(w: World, c: ClientId, all: set<Addr>)
    requires Inv(w, all) && Isolated(w) && c in w.shared.clientIP
    ensures w.shared.clientIP[c] in w.shared.pool.leased && w.shared.pool.leased[w.shared.clientIP[c]] == c
  {
    var a := w.shared.clientIP[c];
    var h :| Serves(w, h, w.shared.pool.leased[a], a);
    assert Names(w, h, a);
  }

  /** Isolated at the start and after each of the first n steps. */
  ghost predicate IsolatedThroughout(w: World, steps: seq<Step>, n: nat)
    requires n <= |steps|
  {
    Isolated(At(w, steps, n)) && (n == 0 || IsolatedThroughout(w, steps, n - 1))
  }

  /** Every allocation among the first n steps is safe when it is made. */
  ghost predicate SafeThroughout(w: World, steps: seq<Step>, n: nat)
    requires n <= |steps|
  {
    n == 0 || (Safe(At(w, steps, n - 1), steps[n - 1]) && SafeThroughout(w, steps, n - 1))
  }

  // A run is isolated throughout exactly when every allocation in it is safe.
  lemma {:induction false} IsolationOverRuns(w: World, steps: seq<Step>, n: nat, all: set<Addr>)
    requires Inv(w, all) && Isolated(w) && n <= |steps|
    ensures IsolatedThroughout(w, steps, n) <==> SafeThroughout(w, steps, n)
  {
    hide Next, Inv, Isolated, Safe;
    if n > 0 {
      IsolationOverRuns(w, steps, n - 1, all);
      AlwaysInv(w, steps, n - 1, all);
      if IsolatedThroughout(w, steps, n - 1) {
        IsolationStep(At(w, steps, n - 1), steps[n - 1], all);
      }
    }
  }

  // ------------------------------------------------------- when allocations are safe

  /** The step makes a free again. */
  predicate Frees(w: World, v: World, a: Addr) {
    a !in w.shared.pool.available && a in v.shared.pool.available
  }

  /** A handler or a DELETE that names a in v is still there in w. */
  ghost predicate StillNamed(v: World, w: World, a: Addr) {
    || (exists h :: Names(v, h, a) && h in w.handlers)
    || (exists d :: d in v.deletes && v.deletes[d] == a && d in w.deletes)
  }

  ghost predicate Named(w: World, a: Addr) {
    StillNamed(w, w, a)
  }

  /** If step i released a, then whatever named a and is still there after step j is not too late. */
  ghost predicate PromptFor(w: World, steps: seq<Step>, i: nat, j: nat, a: Addr)
    requires 0 < i <= j <= |steps|
  {
    var before, released, later := At(w, steps, i - 1), At(w, steps, i), At(w, steps, j);
    Frees(before, released, a) && StillNamed(released, later, a) ==>
      later.allocations - released.allocations <= |before.shared.pool.available|
  }

  /**
   Everything that names an address when it is released is gone before more allocations
   have happened than there were other addresses free.
   */
  ghost predicate Prompt(w: World, steps: seq<Step>) {
    forall i: nat, j: nat, a | 0 < i <= j <= |steps| :: PromptFor(w, steps, i, j, a)
  }

  /** a is free in all the worlds from step i to step k. */
  ghost predicate FreeThroughout(w: World, steps: seq<Step>, i: nat, k: nat, a: Addr)
    requires i <= k <= |steps|
  {
    a in At(w, steps, k).shared.pool.available && (i == k || FreeThroughout(w, steps, i, k - 1, a))
  }

  // An address that is free now has been free from the start, or since it was last released.
  lemma {:induction false} FreeSince(w: World, steps: seq<Step>, k: nat, a: Addr) returns (since: nat)
    requires k <= |steps| && a in At(w, steps, k).shared.pool.available
    ensures since <= k && FreeThroughout(w, steps, since, k, a)
    ensures since > 0 ==> Frees(At(w, steps, since - 1), At(w, steps, since), a)
  {
    if k == 0 {
      since := 0;
    } else if a in At(w, steps, k - 1).shared.pool.available {
      since := FreeSince(w, steps, k - 1, a);
    } else {
      since := k;
    }
  }

  /** Whatever names a in v already named it in u. */
  ghost predicate OldNames(u: World, v: World, a: Addr) {
    && (forall h | Names(v, h, a) :: Names(u, h, a))
    && (forall d | d in v.deletes && v.deletes[d] == a :: d in u.deletes && u.deletes[d] == a)
  }

  // Nobody starts to name an address while it is free.
  lemma NoNewNames(w: World, step: Step, a: Addr, all: set<Addr>)
    requires Inv(w, all) && Isolated(w)
    requires a in w.shared.pool.available && a in Next(w, step).shared.pool.available
    ensures OldNames(w, Next(w, step), a)
  {
    hide NoLeak, RoutesLive, NoDuplicates;
    PartitionStep(w, step, all);
    match step
    case Connect(c) =>
      if Allocates(w.shared, c) {
        var p := w.shared.pool;
        assert p.available[0] in Next(w, step).shared.pool.leased;
      }
    case _ =>
  }

  lemma {:induction false} NamesSince(w: World, steps: seq<Step>, i: nat, k: nat, a: Addr, all: set<Addr>)
    requires Inv(w, all) && i <= k <= |steps| && IsolatedThroughout(w, steps, k)
    requires FreeThroughout(w, steps, i, k, a)
    ensures OldNames(At(w, steps, i), At(w, steps, k), a)
  {
    hide Next, Inv, Isolated, Names;
    if i < k {
      NamesSince(w, steps, i, k - 1, a, all);
      AlwaysInv(w, steps, k - 1, all);
      NoNewNames(At(w, steps, k - 1), steps[k - 1], a, all);
    }
  }

  // A free address moves one place forward with each allocation and never otherwise.
  lemma PositionStep(w: World, step: Step, p: nat, all: set<Addr>)
    requires Partition(w.shared.pool, all) && p < |w.shared.pool.available|
    requires w.shared.pool.available[p] in Next(w, step).shared.pool.available
    ensures var v := Next(w, step);
      && w.allocations <= v.allocations <= w.allocations + p
      && var q := p - (v.allocations - w.allocations);
         q < |v.shared.pool.available| && v.shared.pool.available[q] == w.shared.pool.available[p]
  {
    PartitionStep(w, step, all);
    if step.Connect? && Allocates(w.shared, step.client) {
      assert w.shared.pool.available[0] in Next(w, step).shared.pool.leased;
    }
  }

  /** Since u, a has moved forward from place p by one for each allocation. */
  predicate Moved(u: World, v: World, p: nat, a: Addr) {
    var q := p - (v.allocations - u.allocations);
    u.allocations <= v.allocations && 0 <= q < |v.shared.pool.available| && v.shared.pool.available[q] == a
  }

  lemma MovedStep(u: World, v: World, step: Step, p: nat, a: Addr, all: set<Addr>)
    requires Moved(u, v, p, a) && Partition(v.shared.pool, all) && a in Next(v, step).shared.pool.available
    ensures Moved(u, Next(v, step), p, a)
  {
    PositionStep(v, step, p - (v.allocations - u.allocations), all);
  }

  lemma {:induction false} PositionSince(w: World, steps: seq<Step>, i: nat, k: nat, p: nat, a: Addr, all: set<Addr>)
    requires Inv(w, all) && i <= k <= |steps| && p < |At(w, steps, i).shared.pool.available|
    requires At(w, steps, i).shared.pool.available[p] == a && FreeThroughout(w, steps, i, k, a)
    ensures Moved(At(w, steps, i), At(w, steps, k), p, a)
  {
    hide Next, Partition, NoLeak, RoutesLive, FreshIds;
    if i < k {
      PositionSince(w, steps, i, k - 1, p, a, all);
      AlwaysInv(w, steps, k - 1, all);
      MovedStep(At(w, steps, i), At(w, steps, k - 1), steps[k - 1], p, a, all);
    }
  }

  lemma FreedAtTheEnd(w: World, step: Step, a: Addr)
    requires Frees(w, Next(w, step), a)
    ensures Next(w, step).shared.pool.available == w.shared.pool.available + [a]
  {
  }

  /** Nobody at all names the address that the step leases out. */
  ghost predicate Unclaimed(w: World, step: Step) {
    step.Connect? && Allocates(w.shared, step.client) ==> !Named(w, w.shared.pool.available[0])
  }

  lemma NobodyAtStart(w: World, steps: seq<Step>, k: nat, a: Addr)
    requires k <= |steps| && w.handlers == map[] && w.deletes == map[]
    ensures !StillNamed(At(w, steps, 0), At(w, steps, k), a)
  {
    assert At(w, steps, 0) == w;
  }

  lemma FirstPlace(u: World, v: World, p: nat, a: Addr)
    requires Moved(u, v, p, a) && NoDuplicates(v.shared.pool.available) && v.shared.pool.available[0] == a
    ensures v.allocations == u.allocations + p
  {
  }

  // An address in place p that has stayed free and is now first has seen p allocations.
  lemma TurnComes(w: World, steps: seq<Step>, i: nat, k: nat, p: nat, a: Addr, all: set<Addr>)
    requires Inv(w, all) && i <= k <= |steps| && p < |At(w, steps, i).shared.pool.available|
    requires At(w, steps, i).shared.pool.available[p] == a && FreeThroughout(w, steps, i, k, a)
    requires At(w, steps, k).shared.pool.available != [] && At(w, steps, k).shared.pool.available[0] == a
    ensures At(w, steps, k).allocations == At(w, steps, i).allocations + p
  {
    PositionSince(w, steps, i, k, p, a, all);
    AlwaysInv(w, steps, k, all);
    FirstPlace(At(w, steps, i), At(w, steps, k), p, a);
  }

  lemma ConnectKeepsNames(v: World, w: World, step: Step, a: Addr)
    requires step.Connect? && StillNamed(v, w, a)
    ensures StillNamed(v, Next(w, step), a)
  {
    if h :| Names(v, h, a) && h in w.handlers {
      assert h in Next(w, step).handlers;
    }
  }

  lemma ReleasedInTime(w: World, steps: seq<Step>, i: nat, k: nat, a: Addr, all: set<Addr>)
    requires Inv(w, all) && Prompt(w, steps) && 0 < i <= k < |steps|
    requires Frees(At(w, steps, i - 1), At(w, steps, i), a) && FreeThroughout(w, steps, i, k, a)
    requires steps[k].Connect? && Allocates(At(w, steps, k).shared, steps[k].client)
    requires At(w, steps, k).shared.pool.available[0] == a
    ensures !StillNamed(At(w, steps, i), At(w, steps, k), a)
  {
    FreedAtTheEnd(At(w, steps, i - 1), steps[i - 1], a);
    TurnComes(w, steps, i, k, |At(w, steps, i - 1).shared.pool.available|, a, all);
    assert PromptFor(w, steps, i, k + 1, a);
    if StillNamed(At(w, steps, i), At(w, steps, k), a) {
      ConnectKeepsNames(At(w, steps, i), At(w, steps, k), steps[k], a);
    }
  }

  lemma NobodyLeft(w: World, steps: seq<Step>, since: nat, k: nat, a: Addr, all: set<Addr>)
    requires Inv(w, all) && Prompt(w, steps) && since <= k < |steps| && w.handlers == map[] && w.deletes == map[]
    requires since > 0 ==> Frees(At(w, steps, since - 1), At(w, steps, since), a)
    requires FreeThroughout(w, steps, since, k, a)
    requires steps[k].Connect? && Allocates(At(w, steps, k).shared, steps[k].client)
    requires At(w, steps, k).shared.pool.available[0] == a
    ensures !StillNamed(At(w, steps, since), At(w, steps, k), a)
  {
    if since == 0 {
      NobodyAtStart(w, steps, k, a);
    } else {
      ReleasedInTime(w, steps, since, k, a, all);
    }
  }

  lemma NamedImpliesStill(v: World, w: World, a: Addr)
    requires OldNames(v, w, a) && Named(w, a)
    ensures StillNamed(v, w, a)
  {
    if h :| Names(w, h, a) && h in w.handlers {
      assert Names(v, h, a);
    }
  }

  // If everything lets go promptly, an address is leased out only when nobody names it.
  lemma PromptUnclaimed(addresses: seq<Addr>, steps: seq<Step>, k: nat)
    requires NoDuplicates(addresses) && Prompt(Start(addresses), steps) && k < |steps|
    requires IsolatedThroughout(Start(addresses), steps, k)
    ensures Unclaimed(At(Start(addresses), steps, k), steps[k])
  {
    var w, all := Start(addresses), set a | a in addresses;
    var u := At(w, steps, k);
    AlwaysInv(w, steps, k, all);
    if steps[k].Connect? && Allocates(u.shared, steps[k].client) {
      var a := u.shared.pool.available[0];
      var since := FreeSince(w, steps, k, a);
      NamesSince(w, steps, since, k, a, all);
      NobodyLeft(w, steps, since, k, a, all);
      if Named(u, a) {
        NamedImpliesStill(At(w, steps, since), u, a);
      }
    }
  }

  lemma UnclaimedIsSafe(w: World, step: Step)
    requires Unclaimed(w, step)
    ensures Safe(w, step)
  {
    if step.Connect? && Allocates(w.shared, step.client) {
      var a := w.shared.pool.available[0];
      forall h | h in w.handlers
        ensures w.handlers[h].addr != a
      {
        assert !Names(w, h, a);
      }
    }
  }

  // FIFO order makes promptness enough: in every run of a server, if whatever names an
  // address when it is released is gone by the time its turn comes again, then no client
  // ever gets an address that someone else still uses, and isolation holds throughout.
  lemma {:induction false} PromptRunsAreIsolated(addresses: seq<Addr>, steps: seq<Step>, k: nat)
    requires NoDuplicates(addresses) && Prompt(Start(addresses), steps) && k <= |steps|
    ensures IsolatedThroughout(Start(addresses), steps, k)
  {
    var w, all := Start(addresses), set a | a in addresses;
    if k > 0 {
      PromptRunsAreIsolated(addresses, steps, k - 1);
      PromptUnclaimed(addresses, steps, k - 1);
      AlwaysInv(w, steps, k - 1, all);
      UnclaimedIsSafe(At(w, steps, k - 1), steps[k - 1]);
      IsolationStep(At(w, steps, k - 1), steps[k - 1], all);
    }
  }

  // ------------------------------------------------------------------- routing

  /** The session processPackets hands a packet to. */
  function Route(s: Shared, packet: Packet): Option<SessionId> {
    var dst := Destination(packet);
    if dst.Some? && dst.value in s.ipConn then Some(s.ipConn[dst.value]) else None
  }

  // In every interleaving: a routed packet goes to the open session of a live handler that
  // was leased the packet's destination address; and while isolation holds, that handler
  // is the owner's, if the address has one.
  lemma RoutedToLessee(w: World, packet: Packet, all: set<Addr>)
    requires Inv(w, all) && Route(w.shared, packet).Some?
    ensures var h, dst := Route(w.shared, packet).value, Destination(packet).value;
      && Names(w, h, dst) && w.handlers[h].attached && h !in w.shared.closed
      && (Isolated(w) ==> forall c | c in w.shared.clientIP && w.shared.clientIP[c] == dst :: w.handlers[h].client == c)
  {
  }

  // ------------------------------------------------------------ implementation

  class Server {
    const ipPool: IPPool
    var clientIPMap: map<ClientId, Addr>
    var ipConnMap: map<Addr, SessionId>
    /** The sessions whose connection has been closed here. */
    var closedSessions: set<SessionId>

    ghost function View(): Shared
      reads this, ipPool
    {
      Shared(ipPool.View(), clientIPMap, ipConnMap, closedSessions)
    }

    constructor New(cidr: Prefix)
      requires cidr.Valid() && !AllOnes(Last(Masked(cidr.addr.bytes, cidr.bits), cidr.bits))
      ensures var info := NetworkOf(cidr);
        View() == Start(PoolAddresses(info.prefix, info.gateway.addr)).shared
      ensures fresh(ipPool)
    {
      var info := NewNetworkInfo(cidr);
      NetworkEnds(cidr);
      ipPool := new IPPool.NewIPPool(info.prefix, info.gateway.addr);
      clientIPMap, ipConnMap, closedSessions := map[], map[], {};
    }

    // None is the error return.
    method AssignIPToClient(client: ClientId) returns (ip: Option<Addr>)
      modifies this, ipPool
      ensures ip == Lease(old(View()), client)
      ensures View() == Assigned(old(View()), client)
    {
      if client in clientIPMap {
        return Some(clientIPMap[client]);
      }
      ip := ipPool.Allocate(client);
      if ip.None? {
        return;
      }
      clientIPMap := clientIPMap[client := ip.value];
    }

    method AttachSession(ip: Addr, session: SessionId)
      modifies this
      ensures View() == Attached(old(View()), ip, session)
    {
      ipConnMap := ipConnMap[ip := session];
    }

    method CleanupClientSession(client: ClientId, ip: Addr)
      modifies this, ipPool
      ensures View() == CleanedUp(old(View()), client, ip)
    {
      clientIPMap := clientIPMap - {client};
      if ip in ipConnMap {
        closedSessions := closedSessions + {ipConnMap[ip]};
        ipConnMap := ipConnMap - {ip};
      }
      ipPool.Release(ip);
    }

    // The part of disconnectClient under the lock; None is the not-found answer.
    method DisconnectLocked(client: ClientId) returns (ip: Option<Addr>)
      modifies this
      ensures client !in old(clientIPMap) ==> ip == None && View() == old(View())
      ensures client in old(clientIPMap) ==>
        ip == Some(old(clientIPMap)[client]) && View() == Disconnected(old(View()), client)
    {
      if client !in clientIPMap {
        return None;
      }
      ip := Some(clientIPMap[client]);
      if ip.value in ipConnMap {
        closedSessions := closedSessions + {ipConnMap[ip.value]};
        ipConnMap := ipConnMap - {ip.value};
      }
      clientIPMap := clientIPMap - {client};
    }

    // The rest of it, after the lock is given up.
    method DisconnectRelease(ip: Addr)
      modifies ipPool
      ensures View() == old(View()).(pool := Released(old(View()).pool, ip))
    {
      ipPool.Release(ip);
    }

    method FindClientSession(ip: Addr) returns (session: Option<SessionId>)
      ensures session == if ip in View().ipConn then Some(View().ipConn[ip]) else None
    {
      if ip !in ipConnMap {
        return None;
      }
      session := Some(ipConnMap[ip]);
    }

    method ParseDestinationIP(packet: Packet) returns (ip: Option<Addr>)
      ensures ip == Destination(packet)
      ensures forall dst :: ip == Some(dst) <==> AddressedTo(packet, dst)
    {
      forall dst
        ensures Destination(packet) == Some(dst) <==> AddressedTo(packet, dst)
      {
        DestinationExact(packet, dst);
      }
      if |packet| < 20 {
        return None;
      }
      var version := packet[0] >> 4;
      if version == 4 {
        return Some(Addr(packet[16..20]));
      }
      if version == 6 {
        if |packet| < 40 {
          return None;
        }
        return Some(Addr(packet[24..40]));
      }
      return None;
    }

    // One turn of processPackets up to forwarding: whom to forward the packet to, if anyone.
    method RoutePacket(packet: Packet) returns (session: Option<SessionId>)
      ensures session == Route(View(), packet)
    {
      var ip := ParseDestinationIP(packet);
      if ip.None? {
        return None;
      }
      session := FindClientSession(ip.value);
    }
  }
}
