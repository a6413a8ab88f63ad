/**
 One connection from beginning to end, while other clients, their handlers and DELETEs run
 beside it: what it keeps, where packets for it go, and what it leaves behind.
 */
module Connections {

  import opened Address
  import opened Allocation
  import opened Bytes
  import opened IpPackets
  import opened ServerState
  import opened Wrappers

  /** Nothing but handler h of client c has to do with address a, and a's packets go to h once it is attached. */
  ghost predicate Exclusive(w: World, h: SessionId, c: ClientId, a: Addr) {
    && Serves(w, h, c, a)
    && c in w.shared.clientIP && w.shared.clientIP[c] == a && a in w.shared.pool.leased
    && (forall g | g in w.handlers :: w.handlers[g].client == c || w.handlers[g].addr == a ==> g == h)
    && (forall d | d in w.deletes :: w.deletes[d] != a)
    && (forall e | e in w.shared.clientIP :: w.shared.clientIP[e] == a ==> e == c)
    && (w.handlers[h].attached ==> a in w.shared.ipConn && w.shared.ipConn[a] == h)
  }

  /** The client has no live handler from an earlier connection, and nobody names the address it is about to get. */
  ghost predicate NewClient(w: World, c: ClientId) {
    && Allocates(w.shared, c)
    && (forall g | g in w.handlers :: w.handlers[g].client != c)
    && !Named(w, w.shared.pool.available[0])
  }

  /** The step is one that the connection of client c with handler h has to reckon with. */
  predicate Concerns(step: Step, h: SessionId, c: ClientId) {
    step == Connect(c) || step == StartDelete(c) || step == Finish(h)
  }

  predicate Undisturbed(steps: seq<Step>, n: nat, h: SessionId, c: ClientId)
    requires n <= |steps|
  {
    forall i | 0 <= i < n :: !Concerns(steps[i], h, c)
  }

  // ------------------------------------------------------------ while it lasts

  lemma NobodyNames(w: World, a: Addr)
    requires !Named(w, a)
    ensures forall g | g in w.handlers :: w.handlers[g].addr != a
    ensures forall d | d in w.deletes :: w.deletes[d] != a
  {
    forall g | g in w.handlers
      ensures w.handlers[g].addr != a
    {
      assert !Names(w, g, a);
    }
  }

  lemma NobodyOwns(w: World, a: Addr)
    requires NoLeak(w) && !Named(w, a)
    ensures forall e | e in w.shared.clientIP :: w.shared.clientIP[e] != a
  {
    NobodyNames(w, a);
    forall e | e in w.shared.clientIP
      ensures w.shared.clientIP[e] != a
    {
      var g :| Serves(w, g, e, w.shared.clientIP[e]);
    }
  }

  lemma ConnectIsExclusive(w: World, c: ClientId, all: set<Addr>)
    requires Inv(w, all) && NewClient(w, c)
    ensures Exclusive(Next(w, Connect(c)), w.nextId, c, w.shared.pool.available[0])
  {
    NobodyNames(w, w.shared.pool.available[0]);
    NobodyOwns(w, w.shared.pool.available[0]);
  }

  lemma ConnectBeside(w: World, e: ClientId, h: SessionId, c: ClientId, a: Addr)
    requires Exclusive(w, h, c, a) && e != c && w.nextId !in w.handlers
    requires forall i | 0 <= i < |w.shared.pool.available| :: w.shared.pool.available[i] !in w.shared.pool.leased
    ensures Exclusive(Next(w, Connect(e)), h, c, a)
  {
    if Allocates(w.shared, e) {
      assert w.shared.pool.available[0] != a;
    }
  }

  lemma AttachBeside(w: World, g: SessionId, h: SessionId, c: ClientId, a: Addr)
    requires Exclusive(w, h, c, a)
    ensures Exclusive(Next(w, Attach(g)), h, c, a)
  {
  }

  lemma FinishBeside(w: World, g: SessionId, h: SessionId, c: ClientId, a: Addr)
    requires Exclusive(w, h, c, a) && g != h
    ensures Exclusive(Next(w, Finish(g)), h, c, a)
  {
  }

  lemma DeleteBeside(w: World, e: ClientId, h: SessionId, c: ClientId, a: Addr)
    requires Exclusive(w, h, c, a) && e != c
    ensures Exclusive(Next(w, StartDelete(e)), h, c, a)
  {
  }

  lemma ExclusiveStep(w: World, step: Step, h: SessionId, c: ClientId, a: Addr, all: set<Addr>)
    requires Inv(w, all) && Exclusive(w, h, c, a) && !Concerns(step, h, c)
    ensures Exclusive(Next(w, step), h, c, a)
  {
    match step
    case Connect(e) =>
      assert w.nextId !in w.handlers;
      ConnectBeside(w, e, h, c, a);
    case Attach(g) => AttachBeside(w, g, h, c, a);
    case Finish(g) => FinishBeside(w, g, h, c, a);
    case StartDelete(e) => DeleteBeside(w, e, h, c, a);
    case FinishDelete(d) =>
  }

  // Whatever other clients, their handlers and DELETEs do in between, the connection keeps
  // its address and its entry, and nobody else gets hold of either.
  lemma {:induction false} ExclusiveThroughout(w: World, steps: seq<Step>, n: nat, h: SessionId, c: ClientId, a: Addr,
                                               all: set<Addr>)
    requires Inv(w, all) && Exclusive(w, h, c, a) && n <= |steps| && Undisturbed(steps, n, h, c)
    ensures Exclusive(At(w, steps, n), h, c, a)
  {
    hide Next, Inv, Exclusive, Concerns;
    if n > 0 {
      ExclusiveThroughout(w, steps, n - 1, h, c, a, all);
      AlwaysInv(w, steps, n - 1, all);
      ExclusiveStep(At(w, steps, n - 1), steps[n - 1], h, c, a, all);
    }
  }

  lemma AttachedStep(w: World, step: Step, h: SessionId)
    requires h in w.handlers && h < w.nextId && step != Finish(h)
    ensures h in Next(w, step).handlers && h < Next(w, step).nextId
    ensures w.handlers[h].attached || step == Attach(h) ==> Next(w, step).handlers[h].attached
  {
  }

  lemma {:induction false} AttachedSince(w: World, steps: seq<Step>, j: nat, n: nat, h: SessionId)
    requires h in w.handlers && h < w.nextId && n <= |steps| && forall i | 0 <= i < n :: steps[i] != Finish(h)
    ensures h in At(w, steps, n).handlers && h < At(w, steps, n).nextId
    ensures j < n && steps[j] == Attach(h) ==> At(w, steps, n).handlers[h].attached
  {
    hide Next;
    if n > 0 {
      AttachedSince(w, steps, j, n - 1, h);
      AttachedStep(At(w, steps, n - 1), steps[n - 1], h);
    }
  }

  // From the attach on, in every later state: a packet goes to the connection's session if
  // and only if it is addressed to the connection's address.
  lemma AttachRoutes(w: World, steps: seq<Step>, j: nat, n: nat, h: SessionId, c: ClientId, a: Addr, packet: Packet,
                     all: set<Addr>)
    requires Inv(w, all) && Exclusive(w, h, c, a)
    requires j < n <= |steps| && Undisturbed(steps, n, h, c) && steps[j] == Attach(h)
    ensures Route(At(w, steps, n).shared, packet) == Some(h) <==> AddressedTo(packet, a)
  {
    hide At, Next, NoLeak, Partition, AddressedTo, Destination;
    ExclusiveThroughout(w, steps, n, h, c, a, all);
    AlwaysInv(w, steps, n, all);
    AttachedSince(w, steps, j, n, h);
    DestinationExact(packet, a);
  }

  // ---------------------------------------------------------------- reconnects

  /** The step takes away the client's entry: a DELETE of the client, or the end of one of its handlers. */
  predicate DropsEntry(w: World, step: Step, c: ClientId) {
    match step
    case StartDelete(e) => e == c
    case Finish(h) => h in w.handlers && w.handlers[h].attached && w.handlers[h].client == c
    case _ => false
  }

  ghost predicate EntryKept(w: World, steps: seq<Step>, n: nat, c: ClientId)
    requires n <= |steps|
  {
    n == 0 || (!DropsEntry(At(w, steps, n - 1), steps[n - 1], c) && EntryKept(w, steps, n - 1, c))
  }

  ghost predicate AddressKept(w: World, steps: seq<Step>, n: nat, c: ClientId, a: Addr)
    requires n <= |steps|
  {
    Owns(At(w, steps, n), c, a) && (n == 0 || AddressKept(w, steps, n - 1, c, a))
  }

  lemma EntryStep(w: World, step: Step, c: ClientId, a: Addr)
    requires Owns(w, c, a)
    ensures Owns(Next(w, step), c, a) <==> !DropsEntry(w, step, c)
  {
  }

  // A client's address changes in no interleaving of any steps but its own: it has the
  // address throughout exactly when no step drops its entry.
  lemma {:induction false} EntryThroughout(w: World, steps: seq<Step>, n: nat, c: ClientId, a: Addr)
    requires Owns(w, c, a) && n <= |steps|
    ensures AddressKept(w, steps, n, c, a) <==> EntryKept(w, steps, n, c)
  {
    hide Next, DropsEntry, Owns;
    if n > 0 {
      EntryThroughout(w, steps, n - 1, c, a);
      if AddressKept(w, steps, n - 1, c, a) {
        EntryStep(At(w, steps, n - 1), steps[n - 1], c, a);
      }
    }
  }

  // A client that connects again is given the address it has, at any later moment and in
  // every interleaving, and nothing is allocated, as long as no DELETE of the client has
  // started and none of its handlers has ended.
  lemma ReconnectSharesLease(w: World, steps: seq<Step>, n: nat, c: ClientId, a: Addr)
    requires Owns(w, c, a) && n <= |steps| && EntryKept(w, steps, n, c)
    ensures var u := At(w, steps, n);
      && Next(u, Connect(c)).shared == u.shared && Next(u, Connect(c)).allocations == u.allocations
      && Serves(Next(u, Connect(c)), u.nextId, c, a)
  {
    EntryThroughout(w, steps, n, c, a);
  }

  // ------------------------------------------------------------------- the end

  /** Nothing of the connection is left. */
  ghost predicate Gone(w: World, h: SessionId, c: ClientId, a: Addr) {
    && c !in w.shared.clientIP && a !in w.shared.ipConn && a !in w.shared.pool.leased && h in w.shared.closed
    && (forall g | g in w.handlers :: w.handlers[g].client != c && w.handlers[g].addr != a)
  }

  lemma FinishLeavesNothing(u: World, h: SessionId, c: ClientId, a: Addr)
    requires Exclusive(u, h, c, a) && u.handlers[h].attached
    ensures var v := Next(u, Finish(h));
      && Gone(v, h, c, a) && v.deletes == u.deletes && v.handlers == u.handlers - {h}
      && v.shared.pool == Pool(u.shared.pool.available + [a], u.shared.pool.leased - {a})
      && v.shared.clientIP == u.shared.clientIP - {c} && v.shared.ipConn == u.shared.ipConn - {a}
  {
  }

  lemma NumberTaken(w: World, c: ClientId)
    requires Allocates(w.shared, c)
    ensures w.nextId < Next(w, Connect(c)).nextId
  {
  }

  // From a new client's connect to the end of its handler, with any interleaving of others
  // in between: afterwards nothing of the connection is left, its address is at the end of
  // the queue, and the last step has changed nothing for anybody else.
  lemma LifeCycle(w: World, c: ClientId, steps: seq<Step>, j: nat, all: set<Addr>)
    requires Inv(w, all) && NewClient(w, c) && j < |steps| && Undisturbed(steps, |steps|, w.nextId, c)
    requires steps[j] == Attach(w.nextId)
    ensures var h, a, u := w.nextId, w.shared.pool.available[0], At(Next(w, Connect(c)), steps, |steps|);
      var v := Next(u, Finish(h));
      && Exclusive(u, h, c, a) && Gone(v, h, c, a)
      && v.deletes == u.deletes && v.handlers == u.handlers - {h}
      && v.shared.pool == Pool(u.shared.pool.available + [a], u.shared.pool.leased - {a})
      && v.shared.clientIP == u.shared.clientIP - {c} && v.shared.ipConn == u.shared.ipConn - {a}
  {
    hide Next, At, NoLeak, RoutesLive, FreshIds, Partition;
    var h, a, begun := w.nextId, w.shared.pool.available[0], Next(w, Connect(c));
    ConnectIsExclusive(w, c, all);
    InvStep(w, Connect(c), all);
    NumberTaken(w, c);
    ExclusiveThroughout(begun, steps, |steps|, h, c, a, all);
    AttachedSince(begun, steps, j, |steps|, h);
    FinishLeavesNothing(At(begun, steps, |steps|), h, c, a);
  }

  // ------------------------------------------------------------------- DELETE

  /** DELETE d is between its two steps, about to release a. */
  predicate Deleting(w: World, d: nat, a: Addr) {
    d in w.deletes && w.deletes[d] == a && d < w.nextId
  }

  lemma DeletingStep(w: World, step: Step, d: nat, a: Addr, id: SessionId)
    requires Deleting(w, d, a) && step != FinishDelete(d)
    ensures Deleting(Next(w, step), d, a)
    ensures id in w.shared.closed ==> id in Next(w, step).shared.closed
  {
  }

  lemma {:induction false} DeletingThroughout(w: World, steps: seq<Step>, n: nat, d: nat, a: Addr, id: SessionId)
    requires Deleting(w, d, a) && n <= |steps| && forall i | 0 <= i < n :: steps[i] != FinishDelete(d)
    ensures Deleting(At(w, steps, n), d, a)
    ensures id in w.shared.closed ==> id in At(w, steps, n).shared.closed
  {
    hide Next, Deleting;
    if n > 0 {
      DeletingThroughout(w, steps, n - 1, d, a, id);
      DeletingStep(At(w, steps, n - 1), steps[n - 1], d, a, id);
    }
  }

  lemma DeleteEnds(u: World, d: nat, a: Addr, all: set<Addr>)
    requires Partition(u.shared.pool, all) && Isolated(u) && a in all && Deleting(u, d, a)
    ensures var v := Next(u, FinishDelete(d));
      a in v.shared.pool.available && forall c | c in v.shared.clientIP :: v.shared.clientIP[c] != a
  {
    if a in u.shared.pool.leased {
      assert (u.shared.pool.available + [a])[|u.shared.pool.available|] == a;
    }
  }

  lemma OwnedIsPooled(w: World, c: ClientId, all: set<Addr>)
    requires Inv(w, all) && Isolated(w) && c in w.shared.clientIP
    ensures w.shared.clientIP[c] in all
  {
  }

  lemma ClosedUnrouted(w: World, packet: Packet, id: SessionId)
    requires RoutesLive(w) && id in w.shared.closed
    ensures Route(w.shared, packet) != Some(id)
  {
  }

  // A DELETE of an isolated client, with anything between its two steps that keeps isolation:
  // after the second step the address is free and nobody's, and the session that had it at the
  // first step is closed for good and routed to by no packet.
  lemma DeleteDisconnects(w: World, c: ClientId, steps: seq<Step>, packet: Packet, all: set<Addr>)
    requires Inv(w, all) && Isolated(w) && c in w.shared.clientIP
    requires IsolatedThroughout(Next(w, StartDelete(c)), steps, |steps|)
    requires forall i | 0 <= i < |steps| :: steps[i] != FinishDelete(w.nextId)
    ensures var a := w.shared.clientIP[c];
      var v := Next(At(Next(w, StartDelete(c)), steps, |steps|), FinishDelete(w.nextId));
      && a in v.shared.pool.available && (forall e | e in v.shared.clientIP :: v.shared.clientIP[e] != a)
      && (a in w.shared.ipConn ==>
           w.shared.ipConn[a] in v.shared.closed && Route(v.shared, packet) != Some(w.shared.ipConn[a]))
  {
    hide At, NoLeak, RoutesLive, FreshIds, Partition, Isolated, Route;
    var a, begun := w.shared.clientIP[c], Next(w, StartDelete(c));
    var id := if a in w.shared.ipConn then w.shared.ipConn[a] else 0;
    InvStep(w, StartDelete(c), all);
    AlwaysInv(begun, steps, |steps|, all);
    OwnedIsPooled(w, c, all);
    var u := At(begun, steps, |steps|);
    DeletingThroughout(begun, steps, |steps|, w.nextId, a, id);
    DeleteEnds(u, w.nextId, a, all);
    InvStep(u, FinishDelete(w.nextId), all);
    if a in w.shared.ipConn {
      ClosedUnrouted(Next(u, FinishDelete(w.nextId)), packet, id);
    }
  }
}
