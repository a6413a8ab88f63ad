/** Leasing addresses (common/ip.go, IPPool): a FIFO queue of free ones and a map of leased ones. */
module Allocation {

  import opened Address
  import opened AddressRange
  import opened Wrappers

  type ClientId = string

  datatype Pool = Pool(available: seq<Addr>, leased: map<Addr, ClientId>)

  datatype Op = Alloc(client: ClientId) | Free(addr: Addr)

  /** The address the next allocation returns; none when the pool is exhausted. */
  function Offered(p: Pool): Option<Addr> {
    if p.available == [] then None else Some(p.available[0])
  }

  function Allocated(p: Pool, client: ClientId): Pool {
    if p.available == [] then p
    else Pool(p.available[1..], p.leased[p.available[0] := client])
  }

  /** Only a leased address goes back, to the end of the queue. */
  function Released(p: Pool, a: Addr): Pool {
    if a in p.leased then Pool(p.available + [a], p.leased - {a}) else p
  }

  function Apply(p: Pool, op: Op): Pool {
    match op
    case Alloc(client) => Allocated(p, client)
    case Free(a) => Released(p, a)
  }

  function Run(p: Pool, ops: seq<Op>): Pool {
    if ops == [] then p else Apply(Run(p, ops[..|ops| - 1]), ops[|ops| - 1])
  }

  // ---------------------------------------------------------------- partition

  predicate NoDuplicates(s: seq<Addr>) {
    forall i, j | 0 <= i < j < |s| :: s[i] != s[j]
  }

  /** Every address of all is free once or leased, never both, and there are no others. */
  ghost predicate Partition(p: Pool, all: set<Addr>) {
    && NoDuplicates(p.available)
    && (forall i | 0 <= i < |p.available| :: p.available[i] !in p.leased)
    && (forall a :: a in all <==> a in p.available || a in p.leased)
  }

  lemma AllocateKeepsPartition(p: Pool, client: ClientId, all: set<Addr>)
    requires Partition(p, all)
    ensures Partition(Allocated(p, client), all)
    ensures |Allocated(p, client).available| + |Allocated(p, client).leased| == |p.available| + |p.leased|
  {
    if p.available != [] {
      var q := Allocated(p, client);
      assert p.available == [p.available[0]] + q.available;
      assert q.leased.Keys == p.leased.Keys + {p.available[0]};
      assert |q.leased| == |q.leased.Keys| && |p.leased| == |p.leased.Keys|;
      forall i | 0 <= i < |q.available|
        ensures q.available[i] == p.available[i + 1] && q.available[i] !in q.leased
      {
      }
    }
  }

  lemma ReleaseKeepsPartition(p: Pool, a: Addr, all: set<Addr>)
    requires Partition(p, all)
    ensures Partition(Released(p, a), all)
    ensures |Released(p, a).available| + |Released(p, a).leased| == |p.available| + |p.leased|
  {
    if a in p.leased {
      var q := Released(p, a);
      assert q.leased.Keys == p.leased.Keys - {a};
      assert |q.leased| == |q.leased.Keys| && |p.leased| == |p.leased.Keys|;
    }
  }

  // Whatever is allocated and released, in any order, including double and foreign
  // releases: the free and the leased addresses partition the initial ones, and the total
  // that Stats reports never changes.
  lemma {:induction false} PartitionAlways(p: Pool, ops: seq<Op>, all: set<Addr>)
    requires Partition(p, all)
    ensures var q := Run(p, ops);
      Partition(q, all) && |q.available| + |q.leased| == |p.available| + |p.leased|
  {
    if ops != [] {
      var front, last := ops[..|ops| - 1], ops[|ops| - 1];
      PartitionAlways(p, front, all);
      match last
      case Alloc(client) => AllocateKeepsPartition(Run(p, front), client, all);
      case Free(a) => ReleaseKeepsPartition(Run(p, front), a, all);
    }
  }

  // --------------------------------------------------------------------- FIFO

  function AllocCount(ops: seq<Op>): nat {
    if ops == [] then 0
    else AllocCount(ops[..|ops| - 1]) + if ops[|ops| - 1].Alloc? then 1 else 0
  }

  // A free address moves forward by one place with each allocation, whatever is released.
  lemma {:induction false} QueuePosition(p: Pool, ops: seq<Op>, k: nat)
    requires k < |p.available| && AllocCount(ops) <= k
    ensures var q := Run(p, ops);
      k - AllocCount(ops) < |q.available| && q.available[k - AllocCount(ops)] == p.available[k]
  {
    if ops != [] {
      QueuePosition(p, ops[..|ops| - 1], k);
    }
  }

  // An address released while k others are free is what exactly the (k+1)-th later
  // allocation returns: none of the first k does, and no release can change that.
  lemma ReuseAfterAllOthers(p: Pool, a: Addr, ops: seq<Op>, all: set<Addr>)
    requires Partition(p, all) && a in p.leased && AllocCount(ops) <= |p.available|
    ensures Offered(Run(Released(p, a), ops)) == Some(a) <==> AllocCount(ops) == |p.available|
  {
    var k := |p.available|;
    var q := Released(p, a);
    var r := Run(q, ops);
    ReleaseKeepsPartition(p, a, all);
    PartitionAlways(q, ops, all);
    QueuePosition(q, ops, k);
    assert r.available[k - AllocCount(ops)] == a;
  }

  // ------------------------------------------------------------ implementation

  class IPPool {
    const prefix: Prefix
    const gateway: Addr
    var leased: map<Addr, ClientId>
    var available: seq<Addr>

    ghost function View(): Pool
      reads this
    {
      Pool(available, leased)
    }

    constructor NewIPPool(prefix: Prefix, gateway: Addr)
      requires prefix.Valid() && !AllOnes(Last(prefix.addr.bytes, prefix.bits))
      ensures this.prefix == prefix && this.gateway == gateway
      ensures View() == Pool(PoolAddresses(prefix, gateway), map[])
    {
      this.prefix, this.gateway := prefix, gateway;
      leased := map[];
      available := [];
      new;
      available := Enumerate(prefix, gateway);
    }

    // None is the error return.
    method Allocate(client: ClientId) returns (ip: Option<Addr>)
      modifies this
      ensures ip == Offered(old(View()))
      ensures View() == Allocated(old(View()), client)
    {
      if |available| == 0 {
        return None;
      }
      ip := Some(available[0]);
      available := available[1..];
      leased := leased[ip.value := client];
    }

    method Release(ip: Addr)
      modifies this
      ensures View() == Released(old(View()), ip)
    {
      if ip in leased {
        leased := leased - {ip};
        available := available + [ip];
      }
    }

    method Stats() returns (total: nat, leasedCount: nat, free: nat)
      ensures leasedCount == |View().leased| && free == |View().available| && total == leasedCount + free
    {
      total := |available| + |leased|;
      leasedCount := |leased|;
      free := |available|;
    }
  }
}
