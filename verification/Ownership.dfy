/**
 Which releases let two clients come to own one address: the exact condition, for single
 steps and for runs.
 */
module Ownership {

  import opened Address
  import opened Allocation
  import opened ServerState

  /**
   The step releases an address somebody owns: the end of a handler, whose own client's entry
   is dropped with it, an address of another client; the end of a DELETE, one of any client.
   */
  ghost predicate ReleasesOwned(w: World, step: Step) {
    match step
    case Finish(h) =>
      && h in w.handlers && w.handlers[h].attached
      && exists c :: c != w.handlers[h].client && Owns(w, c, w.handlers[h].addr)
    case FinishDelete(d) => d in w.deletes && exists c :: Owns(w, c, w.deletes[d])
    case _ => false
  }

  lemma ConnectOwned(w: World, c: ClientId)
    requires Owned(w)
    requires forall i | 0 <= i < |w.shared.pool.available| :: w.shared.pool.available[i] !in w.shared.pool.leased
    ensures Owned(Next(w, Connect(c)))
  {
  }

  lemma FinishOwned(w: World, h: SessionId)
    requires Owned(w)
    ensures Owned(Next(w, Finish(h))) <==> !ReleasesOwned(w, Finish(h))
  {
    var v := Next(w, Finish(h));
    if ReleasesOwned(w, Finish(h)) {
      var c :| c != w.handlers[h].client && Owns(w, c, w.handlers[h].addr);
      assert c in v.shared.clientIP && v.shared.clientIP[c] !in v.shared.pool.leased;
    } else if h in w.handlers && w.handlers[h].attached {
      forall c | c in v.shared.clientIP
        ensures v.shared.clientIP[c] in v.shared.pool.leased
      {
        assert !Owns(w, c, w.handlers[h].addr);
      }
    }
  }

  lemma FinishDeleteOwned(w: World, d: nat)
    requires Owned(w)
    ensures Owned(Next(w, FinishDelete(d))) <==> !ReleasesOwned(w, FinishDelete(d))
  {
    var v := Next(w, FinishDelete(d));
    if ReleasesOwned(w, FinishDelete(d)) {
      var c :| Owns(w, c, w.deletes[d]);
      assert c in v.shared.clientIP && v.shared.clientIP[c] !in v.shared.pool.leased;
    } else if d in w.deletes {
      forall c | c in v.shared.clientIP
        ensures v.shared.clientIP[c] in v.shared.pool.leased
      {
        assert !Owns(w, c, w.deletes[d]);
      }
    }
  }

  // In every state: a step leaves some client without an address of its own exactly when it
  // is one of these releases.
  lemma OwnedStep(w: World, step: Step, all: set<Addr>)
    requires Inv(w, all) && Owned(w)
    ensures Owned(Next(w, step)) <==> !ReleasesOwned(w, step)
  {
    match step
    case Connect(c) => ConnectOwned(w, c);
    case Attach(h) =>
    case Finish(h) => FinishOwned(w, h);
    case StartDelete(c) =>
    case FinishDelete(d) => FinishDeleteOwned(w, d);
  }

  ghost predicate OwnedThroughout(w: World, steps: seq<Step>, n: nat)
    requires n <= |steps|
  {
    Owned(At(w, steps, n)) && (n == 0 || OwnedThroughout(w, steps, n - 1))
  }

  /** None of the first n steps releases an address that is owned at that moment. */
  ghost predicate NoOwnedRelease(w: World, steps: seq<Step>, n: nat)
    requires n <= |steps|
  {
    n == 0 || (!ReleasesOwned(At(w, steps, n - 1), steps[n - 1]) && NoOwnedRelease(w, steps, n - 1))
  }

  // In every run: all clients have addresses of their own throughout exactly when no step
  // releases an address that is owned.
  lemma {:induction false} OwnedOverRuns(w: World, steps: seq<Step>, n: nat, all: set<Addr>)
    requires Inv(w, all) && Owned(w) && n <= |steps|
    ensures OwnedThroughout(w, steps, n) <==> NoOwnedRelease(w, steps, n)
  {
    hide Next, Inv, Owned, ReleasesOwned;
    if n > 0 {
      OwnedOverRuns(w, steps, n - 1, all);
      AlwaysInv(w, steps, n - 1, all);
      if OwnedThroughout(w, steps, n - 1) {
        OwnedStep(At(w, steps, n - 1), steps[n - 1], all);
      }
    }
  }

  // -------------------------------------------------------- what such a release leads to

  lemma {:induction false} AtFirst(w: World, first: Step, rest: seq<Step>, n: nat)
    requires n <= |rest|
    ensures At(w, [first] + rest, n + 1) == At(Next(w, first), rest, n)
  {
    hide Next;
    if n > 0 {
      AtFirst(w, first, rest, n - 1);
    }
  }

  // There are always more client names.
  lemma {:induction false} Longer(clients: set<ClientId>) returns (n: nat)
    ensures forall c | c in clients :: |c| < n
  {
    if clients == {} {
      n := 0;
    } else {
      var c :| c in clients;
      var m := Longer(clients - {c});
      n := m + |c| + 1;
      assert forall d | d in clients :: d == c || d in clients - {c};
    }
  }

  lemma NewName(clients: set<ClientId>) returns (c: ClientId)
    ensures c !in clients
  {
    var n := Longer(clients);
    c := seq(n, _ => 'a');
  }

  lemma ConnectNew(w: World, d: ClientId, c: ClientId, p: nat, a: Addr)
    requires p < |w.shared.pool.available| && w.shared.pool.available[p] == a
    requires Owns(w, c, a) && d !in w.shared.clientIP
    ensures var v := Next(w, Connect(d));
      && Owns(v, c, a) && d != c
      && if p == 0 then Owns(v, d, a)
         else p - 1 < |v.shared.pool.available| && v.shared.pool.available[p - 1] == a
  {
  }

  // While a client owns an address that is free again, new clients only have to connect
  // until its turn comes.
  lemma {:induction false} TurnComesTwice(w: World, c: ClientId, p: nat, a: Addr)
    returns (steps: seq<Step>, d: ClientId)
    requires p < |w.shared.pool.available| && w.shared.pool.available[p] == a && Owns(w, c, a)
    ensures var v := At(w, steps, |steps|); d != c && Owns(v, c, a) && Owns(v, d, a)
    decreases p
  {
    hide Next, Owns;
    d := NewName(w.shared.clientIP.Keys);
    var first, rest := Connect(d), [];
    ConnectNew(w, d, c, p, a);
    if p > 0 {
      rest, d := TurnComesTwice(Next(w, first), c, p - 1, a);
    }
    steps := [first] + rest;
    AtFirst(w, first, rest, |rest|);
  }

  lemma ReleasedButOwned(w: World, step: Step, all: set<Addr>) returns (c: ClientId, p: nat)
    requires Inv(w, all) && Owned(w) && ReleasesOwned(w, step)
    ensures var v := Next(w, step); p < |v.shared.pool.available| && Owns(v, c, v.shared.pool.available[p])
  {
    var a: Addr;
    match step {
      case Finish(h) =>
        a := w.handlers[h].addr;
        c :| c != w.handlers[h].client && Owns(w, c, a);
      case FinishDelete(d) =>
        a := w.deletes[d];
        c :| Owns(w, c, a);
    }
    p := |w.shared.pool.available|;
  }

  // And every such release lets two clients come to own one address.
  lemma ReleaseSharesAddress(w: World, step: Step, all: set<Addr>)
    returns (steps: seq<Step>, c: ClientId, d: ClientId, a: Addr)
    requires Inv(w, all) && Owned(w) && ReleasesOwned(w, step)
    ensures 0 < |steps| && steps[0] == step
    ensures var v := At(w, steps, |steps|); c != d && Owns(v, c, a) && Owns(v, d, a)
  {
    hide Next, Inv, Owned, ReleasesOwned, Owns;
    var p, rest;
    c, p := ReleasedButOwned(w, step, all);
    a := Next(w, step).shared.pool.available[p];
    rest, d := TurnComesTwice(Next(w, step), c, p, a);
    steps := [step] + rest;
    AtFirst(w, step, rest, |rest|);
  }

  // ----------------------------------------------------------- and that it happens

  lemma {:induction false} AtPrefix(w: World, a: seq<Step>, b: seq<Step>, n: nat)
    requires n <= |a|
    ensures At(w, a + b, n) == At(w, a, n)
  {
    hide Next;
    if n > 0 {
      AtPrefix(w, a, b, n - 1);
    }
  }

  lemma {:induction false} AtConcat(w: World, a: seq<Step>, b: seq<Step>, n: nat)
    requires n <= |b|
    ensures At(w, a + b, |a| + n) == At(At(w, a, |a|), b, n)
  {
    hide Next;
    if n == 0 {
      AtPrefix(w, a, b, |a|);
    } else {
      AtConcat(w, a, b, n - 1);
    }
  }

  lemma FiveSteps(w: World, steps: seq<Step>)
    requires |steps| == 5
    ensures At(w, steps, 5) == Next(Next(Next(Next(Next(w, steps[0]), steps[1]), steps[2]), steps[3]), steps[4])
  {
    hide Next;
    assert At(w, steps, 2) == Next(Next(w, steps[0]), steps[1]) by {
      assert At(w, steps, 1) == Next(w, steps[0]);
    }
    assert At(w, steps, 4) == Next(Next(At(w, steps, 2), steps[2]), steps[3]) by {
      assert At(w, steps, 3) == Next(At(w, steps, 2), steps[2]);
    }
  }

  const TWICE: seq<Step> := [Connect("a"), Connect("a"), Attach(0), Attach(1), Finish(0)]

  /** The client's address is free again, but its second handler is still there, with its session closed. */
  predicate HalfGone(w: World, addresses: seq<Addr>)
    requires addresses != []
  {
    && w.shared == Shared(Pool(addresses[1..] + [addresses[0]], map[]), map[], map[], {1})
    && w.handlers == map[1 := Handler("a", addresses[0], true)]
  }

  // A client connects twice and the first of its handlers ends.
  lemma FirstClientTwice(addresses: seq<Addr>)
    requires addresses != []
    ensures HalfGone(At(Start(addresses), TWICE, 5), addresses)
  {
    var x, rest := addresses[0], addresses[1..];
    FiveSteps(Start(addresses), TWICE);
    var w1 := Next(Start(addresses), Connect("a"));
    assert w1.shared == Shared(Pool(rest, map[x := "a"]), map["a" := x], map[], {});
    var w2 := Next(w1, Connect("a"));
    assert w2.shared == w1.shared && w2.handlers == map[0 := Handler("a", x, false), 1 := Handler("a", x, false)];
    var w4 := Next(Next(w2, Attach(0)), Attach(1));
    assert w4.handlers == map[0 := Handler("a", x, true), 1 := Handler("a", x, true)];
    assert w4.shared == w2.shared.(ipConn := map[x := 1]);
  }

  /** The second handler is still there, its client owns nothing, and everybody has an address of their own. */
  ghost predicate Lingering(w: World, x: Addr, all: set<Addr>) {
    && Inv(w, all) && Owned(w) && "a" !in w.shared.clientIP
    && 1 in w.handlers && w.handlers[1] == Handler("a", x, true)
  }

  lemma ConnectOther(w: World, d: ClientId, p: nat, x: Addr, all: set<Addr>)
    requires Lingering(w, x, all) && p < |w.shared.pool.available| && w.shared.pool.available[p] == x
    requires d !in w.shared.clientIP && d != "a"
    ensures var v := Next(w, Connect(d));
      && Lingering(v, x, all)
      && if p == 0 then Owns(v, d, x)
         else p - 1 < |v.shared.pool.available| && v.shared.pool.available[p - 1] == x
  {
    InvStep(w, Connect(d), all);
    OwnedStep(w, Connect(d), all);
  }

  // New clients connect until the address is leased out again.
  lemma {:induction false} LeasedAgain(w: World, p: nat, x: Addr, all: set<Addr>)
    returns (steps: seq<Step>, d: ClientId)
    requires Lingering(w, x, all) && p < |w.shared.pool.available| && w.shared.pool.available[p] == x
    ensures var v := At(w, steps, |steps|); Lingering(v, x, all) && d != "a" && Owns(v, d, x)
    decreases p
  {
    hide Next, Lingering, Owns;
    d := NewName(w.shared.clientIP.Keys + {"a"});
    var first, rest := Connect(d), [];
    ConnectOther(w, d, p, x, all);
    if p > 0 {
      rest, d := LeasedAgain(Next(w, first), p - 1, x, all);
    }
    steps := [first] + rest;
    AtFirst(w, first, rest, |rest|);
  }

  lemma LingersAtFirst(w: World, addresses: seq<Addr>, all: set<Addr>)
    requires Inv(w, all) && addresses != [] && HalfGone(w, addresses)
    ensures Lingering(w, addresses[0], all)
    ensures |w.shared.pool.available| == |addresses|
    ensures w.shared.pool.available[|addresses| - 1] == addresses[0]
  {
  }

  lemma AboutToRelease(w: World, d: ClientId, x: Addr, all: set<Addr>)
    requires Lingering(w, x, all) && d != "a" && Owns(w, d, x)
    ensures Inv(w, all) && Owned(w) && ReleasesOwned(w, Finish(1))
  {
  }

  lemma StartInv(addresses: seq<Addr>)
    requires NoDuplicates(addresses)
    ensures Inv(Start(addresses), set a | a in addresses)
  {
  }

  // Whatever addresses a server starts with, some run of it ends with two clients owning one
  // of them: the end of a first handler frees its address under a second one of the same
  // client, and the end of that one frees it under the client it has gone to.
  lemma TwoOwners(addresses: seq<Addr>) returns (steps: seq<Step>, c: ClientId, d: ClientId, a: Addr)
    requires NoDuplicates(addresses) && addresses != []
    ensures var v := At(Start(addresses), steps, |steps|); c != d && Owns(v, c, a) && Owns(v, d, a)
  {
    hide Next, At, Inv, Owned, Owns, ReleasesOwned, HalfGone, Lingering;
    var all := set a | a in addresses;
    StartInv(addresses);
    AlwaysInv(Start(addresses), TWICE, 5, all);
    FirstClientTwice(addresses);
    var w := At(Start(addresses), TWICE, 5);
    LingersAtFirst(w, addresses, all);
    var again, e := LeasedAgain(w, |addresses| - 1, addresses[0], all);
    var v := At(w, again, |again|);
    AboutToRelease(v, e, addresses[0], all);
    var last;
    last, c, d, a := ReleaseSharesAddress(v, Finish(1), all);
    AtConcat(Start(addresses), TWICE, again, |again|);
    AtConcat(Start(addresses), TWICE + again, last, |last|);
    steps := TWICE + again + last;
  }

  // Isolation, which looks ahead at what may be released, is more than ownership; under the
  // promptness bound of PromptRunsAreIsolated no owned address is ever released.
  lemma {:induction false} IsolatedIsOwned(w: World, steps: seq<Step>, n: nat)
    requires n <= |steps| && IsolatedThroughout(w, steps, n)
    ensures OwnedThroughout(w, steps, n)
  {
    hide Next;
    if n > 0 {
      IsolatedIsOwned(w, steps, n - 1);
    }
  }

  lemma PromptKeepsOwners(addresses: seq<Addr>, steps: seq<Step>)
    requires NoDuplicates(addresses) && Prompt(Start(addresses), steps)
    ensures NoOwnedRelease(Start(addresses), steps, |steps|)
  {
    hide Next, Prompt;
    PromptRunsAreIsolated(addresses, steps, |steps|);
    IsolatedIsOwned(Start(addresses), steps, |steps|);
    OwnedOverRuns(Start(addresses), steps, |steps|, set a | a in addresses);
  }
}
