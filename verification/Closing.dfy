/**
 Which sessions get closed: cleanup and DELETE close whatever session is registered for an
 address, so a session that another one has displaced is never closed by anybody.
 */
module Closing {

  import opened Address
  import opened Allocation
  import opened Ownership
  import opened ServerState

  predicate Registered(w: World, id: SessionId) {
    && id in w.handlers && w.handlers[id].addr in w.shared.ipConn
    && w.shared.ipConn[w.handlers[id].addr] == id
  }

  /** The session a step attaches. */
  function AttachedBy(w: World, step: Step): set<SessionId> {
    if step.Attach? && step.handler in w.handlers && !w.handlers[step.handler].attached then {step.handler} else {}
  }

  /** The registered session whose place it takes. */
  function Displaced(w: World, step: Step): set<SessionId> {
    if AttachedBy(w, step) != {} && w.handlers[step.handler].addr in w.shared.ipConn
    then {w.shared.ipConn[w.handlers[step.handler].addr]}
    else {}
  }

  /** All sessions attached in the first n steps. */
  function EverAttached(w: World, steps: seq<Step>, n: nat): set<SessionId>
    requires n <= |steps|
  {
    if n == 0 then {} else EverAttached(w, steps, n - 1) + AttachedBy(At(w, steps, n - 1), steps[n - 1])
  }

  /** All sessions displaced in the first n steps. */
  function EverDisplaced(w: World, steps: seq<Step>, n: nat): set<SessionId>
    requires n <= |steps|
  {
    if n == 0 then {} else EverDisplaced(w, steps, n - 1) + Displaced(At(w, steps, n - 1), steps[n - 1])
  }

  /** Every session that was attached is registered, closed or displaced, and only one of these. */
  predicate Accounted(w: World, attached: set<SessionId>, displaced: set<SessionId>) {
    && (forall id | id in attached :: id < w.nextId && (id in w.handlers ==> w.handlers[id].attached))
    && (forall id | id in attached :: Registered(w, id) || id in w.shared.closed || id in displaced)
    && (forall id | id in displaced :: id in attached && id !in w.shared.closed && !Registered(w, id))
    && (forall id | id in w.shared.closed :: id in attached && !Registered(w, id))
    && (forall id | id in w.handlers && Registered(w, id) :: id in attached)
  }

  lemma AccountedAttach(w: World, h: SessionId, attached: set<SessionId>, displaced: set<SessionId>)
    requires RoutesLive(w) && FreshIds(w) && Accounted(w, attached, displaced)
    ensures Accounted(Next(w, Attach(h)), attached + AttachedBy(w, Attach(h)), displaced + Displaced(w, Attach(h)))
  {
    var v := Next(w, Attach(h));
    forall id
      ensures Registered(v, id) <==>
              id in AttachedBy(w, Attach(h)) || (Registered(w, id) && id !in Displaced(w, Attach(h)))
    {
    }
  }

  lemma AccountedUnroute(w: World, v: World, a: Addr, attached: set<SessionId>, displaced: set<SessionId>)
    requires RoutesLive(w) && Accounted(w, attached, displaced) && w.nextId <= v.nextId
    requires v.shared.ipConn == Unrouted(w.shared, a).ipConn && v.shared.closed == Unrouted(w.shared, a).closed
    requires forall id | id in v.handlers && id < w.nextId :: id in w.handlers && v.handlers[id] == w.handlers[id]
    requires forall b | b in v.shared.ipConn :: v.shared.ipConn[b] in v.handlers
    ensures Accounted(v, attached, displaced)
  {
    forall id | id in attached
      ensures Registered(v, id) || id in v.shared.closed || id in displaced
    {
      if Registered(w, id) && w.handlers[id].addr != a {
        assert w.handlers[id].addr in v.shared.ipConn;
      }
    }
  }

  lemma AccountedStep(w: World, step: Step, attached: set<SessionId>, displaced: set<SessionId>, all: set<Addr>)
    requires Inv(w, all) && Accounted(w, attached, displaced)
    ensures Accounted(Next(w, step), attached + AttachedBy(w, step), displaced + Displaced(w, step))
  {
    assert attached + {} == attached && displaced + {} == displaced;
    match step
    case Attach(h) => AccountedAttach(w, h, attached, displaced);
    case Finish(h) =>
      if h in w.handlers && w.handlers[h].attached {
        RoutesStep(w, step);
        AccountedUnroute(w, Next(w, step), w.handlers[h].addr, attached, displaced);
      }
    case StartDelete(c) =>
      if c in w.shared.clientIP {
        RoutesStep(w, step);
        AccountedUnroute(w, Next(w, step), w.shared.clientIP[c], attached, displaced);
      }
    case Connect(c) =>
    case FinishDelete(d) =>
  }

  lemma {:induction false} AccountedThroughout(w: World, steps: seq<Step>, n: nat, all: set<Addr>)
    requires Inv(w, all) && Accounted(w, {}, {}) && n <= |steps|
    ensures Accounted(At(w, steps, n), EverAttached(w, steps, n), EverDisplaced(w, steps, n))
  {
    hide Next, Inv, Accounted, AttachedBy, Displaced;
    if n > 0 {
      AccountedThroughout(w, steps, n - 1, all);
      AlwaysInv(w, steps, n - 1, all);
      AccountedStep(At(w, steps, n - 1), steps[n - 1], EverAttached(w, steps, n - 1), EverDisplaced(w, steps, n - 1),
                    all);
    }
  }

  // In every run of a server: when no handler is left, the sessions that were attached and
  // have not been closed are exactly those that another attach displaced while registered.
  lemma NeverClosed(addresses: seq<Addr>, steps: seq<Step>, id: SessionId)
    requires NoDuplicates(addresses) && At(Start(addresses), steps, |steps|).handlers == map[]
    requires id in EverAttached(Start(addresses), steps, |steps|)
    ensures id !in At(Start(addresses), steps, |steps|).shared.closed <==>
            id in EverDisplaced(Start(addresses), steps, |steps|)
  {
    hide At, Next, Inv;
    StartInv(addresses);
    AccountedThroughout(Start(addresses), steps, |steps|, set a | a in addresses);
  }

  // A client that connects twice leaves such a session, and while its second handler is still
  // there, the first one's end has already closed that one's session.
  lemma ReconnectLeavesOpen(addresses: seq<Addr>)
    requires addresses != []
    ensures var w := At(Start(addresses), TWICE, 5);
      && 1 in w.handlers && 1 in w.shared.closed
      && var v := Next(w, Finish(1)); v.handlers == map[] && 0 !in v.shared.closed
  {
    hide At;
    FirstClientTwice(addresses);
  }
}
