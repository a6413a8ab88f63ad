/** Network set-up and the addresses a new pool holds (common/ip.go). */
module AddressRange {

  import opened Address
  import opened Bytes

  // ----------------------------------------------------------------- contents

  /** The address reached after k steps of nextIP. */
  function Iterate(k: nat, s: seq<Byte>): seq<Byte> {
    if k == 0 then s else Increment(Iterate(k - 1, s))
  }

  /** The first count addresses from start on, leaving out skip. */
  function Addresses(start: seq<Byte>, count: nat, skip: seq<Byte>): seq<Addr> {
    if count == 0 then []
    else
      var last := Iterate(count - 1, start);
      Addresses(start, count - 1, skip) + if last == skip then [] else [Addr(last)]
  }

  /** How many addresses of the prefix follow its own. */
  function Following(prefix: Prefix): nat {
    var v, end := Value(prefix.addr.bytes), Value(Last(prefix.addr.bytes, prefix.bits));
    if v < end then end - v else 0
  }

  /** What NewIPPool makes available. */
  function PoolAddresses(prefix: Prefix, gateway: Addr): seq<Addr> {
    Addresses(Increment(prefix.addr.bytes), Following(prefix), gateway.bytes)
  }

  lemma {:induction false} IterateValue(k: nat, s: seq<Byte>)
    requires Value(s) + k < Pow2(8 * |s|)
    ensures |Iterate(k, s)| == |s| && Value(Iterate(k, s)) == Value(s) + k
  {
    if k > 0 {
      IterateValue(k - 1, s);
      IncrementCarry(Iterate(k - 1, s));
      AllOnesValue(Iterate(k - 1, s));
    }
  }

  lemma {:induction false} IterateLength(k: nat, s: seq<Byte>)
    ensures |Iterate(k, s)| == |s|
  {
    if k > 0 {
      IterateLength(k - 1, s);
      IncrementCarry(Iterate(k - 1, s));
    }
  }

  // The k-th address is the only one of its number.
  lemma IterateUnique(k: nat, s: seq<Byte>, a: seq<Byte>)
    requires Value(s) + k < Pow2(8 * |s|)
    ensures Iterate(k, s) == a <==> |a| == |s| && Value(a) == Value(s) + k
  {
    IterateValue(k, s);
    if |a| == |s| && Value(a) == Value(s) + k {
      ValueInjective(a, Iterate(k, s));
    }
  }

  lemma MemberAfter(s: seq<Addr>, last: seq<Byte>, skip: seq<Byte>, a: Addr)
    ensures a in s + (if last == skip then [] else [Addr(last)]) <==> a in s || (last != skip && a.bytes == last)
  {
  }

  lemma {:induction false} AddressesMembers(start: seq<Byte>, count: nat, skip: seq<Byte>, a: Addr)
    requires Value(start) + count <= Pow2(8 * |start|)
    ensures a in Addresses(start, count, skip) <==>
            |a.bytes| == |start| && Value(start) <= Value(a.bytes) < Value(start) + count && a.bytes != skip
  {
    if count > 0 {
      AddressesMembers(start, count - 1, skip, a);
      IterateUnique(count - 1, start, a.bytes);
      MemberAfter(Addresses(start, count - 1, skip), Iterate(count - 1, start), skip, a);
    }
  }

  predicate Increasing(s: seq<Addr>) {
    forall i, j | 0 <= i < j < |s| :: Value(s[i].bytes) < Value(s[j].bytes)
  }

  predicate Below(s: seq<Addr>, bound: nat) {
    forall i | 0 <= i < |s| :: Value(s[i].bytes) < bound
  }

  lemma BelowAppend(s: seq<Addr>, a: Addr, bound: nat)
    requires Below(s, bound) && Value(a.bytes) == bound
    ensures Below(s + [a], bound + 1)
    ensures Increasing(s) ==> Increasing(s + [a])
  {
  }

  lemma BelowMore(s: seq<Addr>, bound: nat)
    requires Below(s, bound)
    ensures Below(s, bound + 1)
  {
  }

  lemma {:induction false} AddressesIncreasing(start: seq<Byte>, count: nat, skip: seq<Byte>)
    requires Value(start) + count <= Pow2(8 * |start|)
    ensures Below(Addresses(start, count, skip), Value(start) + count)
    ensures Increasing(Addresses(start, count, skip))
  {
    if count > 0 {
      var front, last := Addresses(start, count - 1, skip), Iterate(count - 1, start);
      AddressesIncreasing(start, count - 1, skip);
      IterateValue(count - 1, start);
      if last == skip {
        BelowMore(front, Value(start) + count - 1);
        assert Addresses(start, count, skip) == front;
      } else {
        BelowAppend(front, Addr(last), Value(start) + count - 1);
        assert Addresses(start, count, skip) == front + [Addr(last)];
      }
    }
  }

  lemma {:induction false} AddressesCount(start: seq<Byte>, count: nat, skip: seq<Byte>)
    requires Value(start) + count <= Pow2(8 * |start|)
    ensures |Addresses(start, count, skip)| ==
            count - (if |skip| == |start| && Value(start) <= Value(skip) < Value(start) + count then 1 else 0)
  {
    hide Iterate, Value, Pow2;
    if count > 0 {
      AddressesCount(start, count - 1, skip);
      IterateUnique(count - 1, start, skip);
    }
  }

  // ------------------------------------------------------------- construction

  lemma RemainderBelow(v: nat, p: nat)
    requires 0 < p
    ensures 0 <= v % p <= p - 1 && v % p <= v
  {
    assert v == p * (v / p) + v % p;
    assert 0 <= v / p;
    assert 0 <= p * (v / p);
  }

  // Unless it would wrap, the loop starts one past the prefix's address.
  lemma StartValue(prefix: Prefix)
    requires prefix.Valid() && !AllOnes(Last(prefix.addr.bytes, prefix.bits))
    ensures var addr, end := prefix.addr.bytes, Last(prefix.addr.bytes, prefix.bits);
      && |Increment(addr)| == |addr| == |end|
      && Value(Increment(addr)) == Value(addr) + 1
      && Value(addr) <= Value(end) < Pow2(8 * |addr|) - 1
  {
    var addr, end := prefix.addr.bytes, Last(prefix.addr.bytes, prefix.bits);
    PrefixValues(addr, prefix.bits);
    RemainderBelow(Value(addr), Pow2(prefix.HostBits()));
    IncrementCarry(addr);
    AllOnesValue(addr);
    AllOnesValue(end);
    ValueBound(addr);
    ValueBound(end);
  }

  // The loop of NewIPPool leaves the prefix after some number of steps exactly when the
  // prefix does not end at the all-ones address; otherwise nextIP wraps around below it.
  lemma LoopExits(prefix: Prefix)
    requires prefix.Valid()
    ensures var start, end := Increment(prefix.addr.bytes), Last(prefix.addr.bytes, prefix.bits);
      (exists k :: Value(Iterate(k, start)) > Value(end)) <==> !AllOnes(end)
  {
    var addr, end := prefix.addr.bytes, Last(prefix.addr.bytes, prefix.bits);
    var start := Increment(addr);
    PrefixValues(addr, prefix.bits);
    AllOnesValue(end);
    ValueBound(end);
    if AllOnes(end) {
      forall k
        ensures Value(Iterate(k, start)) <= Value(end)
      {
        IterateLength(k, start);
        IncrementCarry(addr);
        ValueBound(Iterate(k, start));
      }
    } else {
      StartValue(prefix);
      var k := Value(end) - Value(addr);
      IterateValue(k, start);
    }
  }

  /** a lies in the network of the prefix: their network bits are the same. */
  predicate InNetwork(prefix: Prefix, a: Addr) {
    |a.bytes| == |prefix.addr.bytes| && Masked(a.bytes, prefix.bits) == Masked(prefix.addr.bytes, prefix.bits)
  }

  function Ones(n: nat): seq<Byte> {
    seq(n, _ => 0xFF)
  }

  lemma FilledOnes(b: Byte, m: Byte)
    ensures b | !m == 0xFF <==> 0xFF & m == b & m
  {
  }

  // The last address of a network is all ones exactly when the all-ones address is in it: for
  // each prefix length there is one such network, and the loop does not end for it.
  lemma LastNetwork(prefix: Prefix)
    requires prefix.Valid()
    ensures AllOnes(Last(prefix.addr.bytes, prefix.bits)) <==> InNetwork(prefix, Addr(Ones(|prefix.addr.bytes|)))
  {
    hide MaskByte;
    var addr, ones := prefix.addr.bytes, Ones(|prefix.addr.bytes|);
    forall i: nat | i < |addr|
      ensures Last(addr, prefix.bits)[i] == 0xFF <==> Masked(ones, prefix.bits)[i] == Masked(addr, prefix.bits)[i]
    {
      FilledOnes(addr[i], MaskByte(prefix.bits, i));
    }
    if InNetwork(prefix, Addr(ones)) {
      assert Masked(ones, prefix.bits) == Masked(addr, prefix.bits);
    }
  }

  // One such network is 255.255.255.0/24.
  lemma LoopNeverExits()
    ensures var prefix := Prefix(Addr([0xFF, 0xFF, 0xFF, 0]), 24);
      && prefix.Valid() && Last(prefix.addr.bytes, prefix.bits) == [0xFF, 0xFF, 0xFF, 0xFF]
      && !exists k :: Value(Iterate(k, Increment(prefix.addr.bytes))) > Value(Last(prefix.addr.bytes, prefix.bits))
  {
    var prefix := Prefix(Addr([0xFF, 0xFF, 0xFF, 0]), 24);
    LoopExits(prefix);
    assert AllOnes(Last(prefix.addr.bytes, prefix.bits));
  }

  lemma VisitStep(k: nat, start: seq<Byte>, ip: Addr, gateway: Addr, network: Addr, ips: seq<Addr>)
    requires Value(start) + k + 1 < Pow2(8 * |start|) && ip.bytes == Iterate(k, start)
    requires Value(network.bytes) < Value(start) && ips == Addresses(start, k, gateway.bytes)
    ensures Value(Increment(ip.bytes)) == Value(start) + k + 1
    ensures Addresses(start, k + 1, gateway.bytes) == if ip == gateway || ip == network then ips else ips + [ip]
  {
    IterateValue(k, start);
    IterateValue(k + 1, start);
  }

  // One turn of the loop of NewIPPool: the address is kept unless it is the gateway or the
  // network address.
  method VisitOne(ip: Addr, gateway: Addr, network: Addr, ips: seq<Addr>, ghost start: seq<Byte>, ghost k: nat)
    returns (more: seq<Addr>, next: Addr)
    requires Value(start) + k + 1 < Pow2(8 * |start|) && ip.bytes == Iterate(k, start)
    requires Value(network.bytes) < Value(start) && ips == Addresses(start, k, gateway.bytes)
    ensures next.bytes == Iterate(k + 1, start) && Value(next.bytes) == Value(start) + k + 1
    ensures more == Addresses(start, k + 1, gateway.bytes)
  {
    VisitStep(k, start, ip, gateway, network, ips);
    if ip == gateway || ip == network {
      more := ips;
    } else {
      more := ips + [ip];
    }
    next := NextIP(ip);
  }

  lemma NothingVisited(start: seq<Byte>, skip: seq<Byte>)
    ensures Iterate(0, start) == start && Addresses(start, 0, skip) == []
  {
  }

  // The loop of NewIPPool, from start to end.
  method Visit(start: Addr, end: Addr, gateway: Addr, network: Addr, ghost count: nat) returns (ips: seq<Addr>)
    requires Value(start.bytes) + count == Value(end.bytes) + 1 < Pow2(8 * |start.bytes|)
    requires Value(network.bytes) < Value(start.bytes)
    ensures ips == Addresses(start.bytes, count, gateway.bytes)
  {
    hide Value, Iterate, Addresses, Pow2;
    ips := [];
    var ip := start;
    ghost var k := 0;
    NothingVisited(start.bytes, gateway.bytes);
    // netip orders addresses of one length by number
    while Value(ip.bytes) <= Value(end.bytes)
      invariant k <= count && ip.bytes == Iterate(k, start.bytes) && Value(ip.bytes) == Value(start.bytes) + k
      invariant ips == Addresses(start.bytes, k, gateway.bytes)
      decreases count - k
    {
      ips, ip := VisitOne(ip, gateway, network, ips, start.bytes, k);
      k := k + 1;
    }
  }

  method Enumerate(prefix: Prefix, gateway: Addr) returns (ips: seq<Addr>)
    requires prefix.Valid() && !AllOnes(Last(prefix.addr.bytes, prefix.bits))
    ensures ips == PoolAddresses(prefix, gateway)
  {
    var start := NextIP(prefix.addr);
    var end := LastIP(prefix);
    StartValue(prefix);
    ips := Visit(start, end, gateway, prefix.addr, Following(prefix));
  }

  // The pool of a prefix, for any gateway: the addresses after the prefix's own up to its
  // last one, without the gateway, each once, in increasing order.
  lemma PoolMembers(prefix: Prefix, gateway: Addr, a: Addr)
    requires prefix.Valid() && !AllOnes(Last(prefix.addr.bytes, prefix.bits))
    ensures a in PoolAddresses(prefix, gateway) <==>
            && |a.bytes| == |prefix.addr.bytes| && a.bytes != gateway.bytes
            && Value(prefix.addr.bytes) < Value(a.bytes) <= Value(Last(prefix.addr.bytes, prefix.bits))
  {
    StartValue(prefix);
    AddressesMembers(Increment(prefix.addr.bytes), Following(prefix), gateway.bytes, a);
  }

  lemma PoolIncreasing(prefix: Prefix, gateway: Addr)
    requires prefix.Valid() && !AllOnes(Last(prefix.addr.bytes, prefix.bits))
    ensures Increasing(PoolAddresses(prefix, gateway))
  {
    StartValue(prefix);
    AddressesIncreasing(Increment(prefix.addr.bytes), Following(prefix), gateway.bytes);
  }

  // ------------------------------------------------------------ network set-up

  datatype NetworkInfo = NetworkInfo(prefix: Prefix, gateway: Prefix)

  function NetworkOf(prefix: Prefix): NetworkInfo {
    var network := Masked(prefix.addr.bytes, prefix.bits);
    NetworkInfo(Prefix(Addr(network), prefix.bits), Prefix(Addr(Increment(network)), prefix.bits))
  }

  // For numbers v and x: x has the same multiple of p below it as v.
  lemma SameMultiple(v: nat, x: nat, p: nat)
    requires 0 < p
    ensures x - x % p == v - v % p <==> v - v % p <= x <= v - v % p + p - 1
  {
    RemainderBelow(x, p);
    RemainderBelow(v, p);
    var base := v - v % p;
    var q := v / p;
    assert base == p * q && 0 <= q;
    if base <= x <= base + p - 1 {
      ModUnique(x, p, q, x - base);
    }
  }

  // The network address is the multiple of 2^h below, and the last address 2^h - 1 above it.
  lemma NetworkEnds(prefix: Prefix)
    requires prefix.Valid()
    ensures var network, p := Masked(prefix.addr.bytes, prefix.bits), Pow2(prefix.HostBits());
      && |network| == |Last(network, prefix.bits)| == |prefix.addr.bytes|
      && Value(network) == Value(prefix.addr.bytes) - Value(prefix.addr.bytes) % p
      && Value(Last(network, prefix.bits)) == Value(network) + p - 1
  {
    var network, p := Masked(prefix.addr.bytes, prefix.bits), Pow2(prefix.HostBits());
    PrefixValues(prefix.addr.bytes, prefix.bits);
    PrefixValues(network, prefix.bits);
    RemainderBelow(Value(prefix.addr.bytes), p);
    SameMultiple(Value(prefix.addr.bytes), Value(network), p);
  }

  // The network's address is the prefix's with its host bits cleared, and the gateway's is the
  // next one, with the same prefix length; after the all-ones address that is zero.
  lemma GatewayIsFirst(prefix: Prefix)
    requires prefix.Valid()
    ensures var info := NetworkOf(prefix);
      && info.prefix.bits == info.gateway.bits == prefix.bits
      && |info.prefix.addr.bytes| == |info.gateway.addr.bytes| == |prefix.addr.bytes|
      && Value(info.prefix.addr.bytes) ==
         Value(prefix.addr.bytes) - Value(prefix.addr.bytes) % Pow2(prefix.HostBits())
      && Value(info.gateway.addr.bytes) ==
         if AllOnes(info.prefix.addr.bytes) then 0 else Value(info.prefix.addr.bytes) + 1
  {
    NetworkEnds(prefix);
    IncrementCarry(Masked(prefix.addr.bytes, prefix.bits));
  }

  method NewNetworkInfo(prefix: Prefix) returns (info: NetworkInfo)
    requires prefix.Valid()
    ensures info == NetworkOf(prefix)
    ensures info.prefix.bits == info.gateway.bits == prefix.bits
    ensures Value(info.prefix.addr.bytes) ==
            Value(prefix.addr.bytes) - Value(prefix.addr.bytes) % Pow2(prefix.HostBits())
    ensures Value(info.gateway.addr.bytes) ==
            if AllOnes(info.prefix.addr.bytes) then 0 else Value(info.prefix.addr.bytes) + 1
  {
    GatewayIsFirst(prefix);
    var networkPrefix := Prefix(Addr(Masked(prefix.addr.bytes, prefix.bits)), prefix.bits);
    var firstIP := NextIP(networkPrefix.addr);
    info := NetworkInfo(networkPrefix, Prefix(firstIP, networkPrefix.bits));
  }

  lemma NetworkBounds(prefix: Prefix, a: Addr)
    requires prefix.Valid() && |a.bytes| == |prefix.addr.bytes|
    ensures var network := Masked(prefix.addr.bytes, prefix.bits);
      InNetwork(prefix, a) <==> Value(network) <= Value(a.bytes) <= Value(network) + Pow2(prefix.HostBits()) - 1
  {
    NetworkEnds(prefix);
    PrefixValues(a.bytes, prefix.bits);
    SameMultiple(Value(prefix.addr.bytes), Value(a.bytes), Pow2(prefix.HostBits()));
    if Value(Masked(a.bytes, prefix.bits)) == Value(Masked(prefix.addr.bytes, prefix.bits)) {
      ValueInjective(Masked(a.bytes, prefix.bits), Masked(prefix.addr.bytes, prefix.bits));
    }
  }

  // The pool a server starts with: the addresses of its network but the network address and
  // the gateway, each once and in increasing order; 2^h - 2 of them for h host bits, and
  // none when h is 0 or 1.
  lemma ServerPoolMembers(prefix: Prefix, a: Addr)
    requires prefix.Valid() && !AllOnes(Last(Masked(prefix.addr.bytes, prefix.bits), prefix.bits))
    ensures var info := NetworkOf(prefix);
      a in PoolAddresses(info.prefix, info.gateway.addr) <==>
      InNetwork(prefix, a) && a != info.prefix.addr && a != info.gateway.addr
  {
    var info := NetworkOf(prefix);
    NetworkEnds(prefix);
    PoolMembers(info.prefix, info.gateway.addr, a);
    if |a.bytes| == |prefix.addr.bytes| {
      NetworkBounds(prefix, a);
      if Value(a.bytes) == Value(info.prefix.addr.bytes) {
        ValueInjective(a.bytes, info.prefix.addr.bytes);
      }
    }
  }

  lemma ServerPoolSize(prefix: Prefix)
    requires prefix.Valid() && !AllOnes(Last(Masked(prefix.addr.bytes, prefix.bits), prefix.bits))
    ensures var info := NetworkOf(prefix);
      var pool, p := PoolAddresses(info.prefix, info.gateway.addr), Pow2(prefix.HostBits());
      && Increasing(pool)
      && |pool| == if p <= 2 then 0 else p - 2
  {
    var info := NetworkOf(prefix);
    NetworkEnds(prefix);
    StartValue(info.prefix);
    PoolIncreasing(info.prefix, info.gateway.addr);
    AddressesCount(info.gateway.addr.bytes, Following(info.prefix), info.gateway.addr.bytes);
  }

  // Leaving out the first address shifts all others by one.
  lemma {:induction false} AddressesWithoutFirst(start: seq<Byte>, count: nat, addresses: seq<Addr>)
    requires 0 < count && Value(start) + count <= Pow2(8 * |start|) && addresses == Addresses(start, count, start)
    ensures |addresses| == count - 1
    ensures forall k | 0 <= k < |addresses| :: Value(addresses[k].bytes) == Value(start) + 1 + k
  {
    if count > 1 {
      AddressesWithoutFirst(start, count - 1, Addresses(start, count - 1, start));
      IterateValue(count - 1, start);
    } else {
      assert Iterate(0, start) == start;
      assert Addresses(start, 0, start) == [];
    }
  }

  // The pool a server starts with, address by address: the numbers from the network's plus two
  // to the network's last, in order.
  lemma ServerPoolNumbers(prefix: Prefix)
    requires prefix.Valid() && !AllOnes(Last(Masked(prefix.addr.bytes, prefix.bits), prefix.bits))
    ensures var info, p := NetworkOf(prefix), Pow2(prefix.HostBits());
      var network := Value(prefix.addr.bytes) - Value(prefix.addr.bytes) % p;
      var pool := PoolAddresses(info.prefix, info.gateway.addr);
      && Value(info.prefix.addr.bytes) == network
      && Value(info.gateway.addr.bytes) == network + 1
      && |pool| == (if p <= 2 then 0 else p - 2)
      && forall k | 0 <= k < |pool| ::
           |pool[k].bytes| == |prefix.addr.bytes| && Value(pool[k].bytes) == network + 2 + k
  {
    hide Masked, Last, Pow2, Value, Addresses;
    var info := NetworkOf(prefix);
    NetworkEnds(prefix);
    GatewayIsFirst(prefix);
    StartValue(info.prefix);
    ServerPoolSize(prefix);
    var pool := PoolAddresses(info.prefix, info.gateway.addr);
    if Following(info.prefix) > 0 {
      AddressesWithoutFirst(info.gateway.addr.bytes, Following(info.prefix), pool);
    }
    forall k | 0 <= k < |pool|
      ensures |pool[k].bytes| == |prefix.addr.bytes|
    {
      PoolMembers(info.prefix, info.gateway.addr, pool[k]);
    }
  }
}
