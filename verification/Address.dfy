/**
 Byte-wise address arithmetic (common/ip.go) and the big-endian numbers it stands for, for
 addresses of any length; the code uses 4 and 16 bytes.
 */
module Address {

  import opened Arithmetic
  import opened Bytes

  /** netip.Addr, without zones. */
  datatype Addr = Addr(bytes: seq<Byte>)

  datatype Prefix = Prefix(addr: Addr, bits: nat) {
    predicate Valid() {
      0 < |addr.bytes| && bits <= 8 * |addr.bytes|
    }

    function HostBits(): nat
      requires Valid()
    {
      8 * |addr.bytes| - bits
    }
  }

  // -------------------------------------------------------- bytes and numbers

  function Pow2(n: nat): (r: nat)
    ensures r > 0
  {
    if n == 0 then 1 else 2 * Pow2(n - 1)
  }

  /** The big-endian number a byte string stands for. */
  function Value(s: seq<Byte>): nat {
    if s == [] then 0 else 256 * Value(s[..|s| - 1]) + s[|s| - 1] as nat
  }

  lemma Pow2Bytes(n: nat)
    ensures Pow2(n + 8) == 256 * Pow2(n)
  {
    assert Pow2(n + 8) == 2 * Pow2(n + 7) == 4 * Pow2(n + 6) == 8 * Pow2(n + 5) == 16 * Pow2(n + 4);
    assert Pow2(n + 4) == 2 * Pow2(n + 3) == 4 * Pow2(n + 2) == 8 * Pow2(n + 1);
  }

  lemma {:induction false} ValueBound(s: seq<Byte>)
    ensures Value(s) < Pow2(8 * |s|)
  {
    if s != [] {
      ValueBound(s[..|s| - 1]);
      Pow2Bytes(8 * (|s| - 1));
    }
  }

  lemma SameDigits(x: nat, b: nat, y: nat, c: nat)
    requires b < 256 && c < 256 && 256 * x + b == 256 * y + c
    ensures x == y && b == c
  {
  }

  lemma SameByte(a: Byte, b: Byte)
    requires a as nat == b as nat
    ensures a == b
  {
  }

  // Different addresses of one length stand for different numbers.
  lemma {:induction false} ValueInjective(a: seq<Byte>, b: seq<Byte>)
    requires |a| == |b| && Value(a) == Value(b)
    ensures a == b
  {
    if a != [] {
      var n := |a| - 1;
      SameDigits(Value(a[..n]), a[n] as nat, Value(b[..n]), b[n] as nat);
      SameByte(a[n], b[n]);
      ValueInjective(a[..n], b[..n]);
      assert a == a[..n] + [a[n]] && b == b[..n] + [b[n]];
    }
  }

  // ------------------------------------------------------------- next address

  /** Adding one with carry, from the last byte. */
  function Increment(s: seq<Byte>): seq<Byte> {
    if s == [] then []
    else
      var front, last := s[..|s| - 1], s[|s| - 1];
      if last != 0xFF then front + [last + 1] else Increment(front) + [0]
  }

  predicate AllOnes(s: seq<Byte>) {
    forall i | 0 <= i < |s| :: s[i] == 0xFF
  }

  lemma {:induction false} AllOnesValue(s: seq<Byte>)
    ensures AllOnes(s) <==> Value(s) == Pow2(8 * |s|) - 1
  {
    if s != [] {
      var front, last := s[..|s| - 1], s[|s| - 1];
      AllOnesValue(front);
      ValueBound(front);
      Pow2Bytes(8 * |front|);
      assert AllOnes(s) <==> AllOnes(front) && last == 0xFF;
    }
  }

  lemma NoCarry(b: Byte)
    ensures b + 1 != 0 <==> b != 0xFF
    ensures b != 0xFF ==> (b + 1) as nat == b as nat + 1
  {
  }

  lemma {:induction false} IncrementCarry(s: seq<Byte>)
    ensures |Increment(s)| == |s|
    ensures Value(Increment(s)) == if AllOnes(s) then 0 else Value(s) + 1
  {
    if s != [] {
      var front, last := s[..|s| - 1], s[|s| - 1];
      assert AllOnes(s) <==> AllOnes(front) && last == 0xFF;
      var r := Increment(s);
      IncrementCarry(front);
      if last == 0xFF {
        assert r[..|r| - 1] == Increment(front);
      } else {
        assert r[..|r| - 1] == front;
        NoCarry(last);
      }
    }
  }

  lemma WrapAround(x: nat, m: nat)
    requires 0 < m && x <= m
    ensures x % m == if x == m then 0 else x
  {
  }

  // Adding one with carry is addition of one modulo 2 to the number of bits.
  lemma IncrementValue(s: seq<Byte>)
    ensures |Increment(s)| == |s|
    ensures Value(Increment(s)) == (Value(s) + 1) % Pow2(8 * |s|)
  {
    IncrementCarry(s);
    ValueBound(s);
    AllOnesValue(s);
    WrapAround(Value(s) + 1, Pow2(8 * |s|));
  }

  lemma ReplaceLast<T>(s: seq<T>, tail: seq<T>, x: T)
    requires s != []
    ensures (s + tail)[|s| - 1 := x] == s[..|s| - 1] + ([x] + tail)
  {
  }

  lemma Regroup<T>(a: seq<T>, b: seq<T>, c: seq<T>)
    ensures a + b + c == a + (b + c)
  {
  }

  // One turn of the carry loop, at the last byte of s: without a carry the increment is done.
  lemma CarryStops(s: seq<Byte>, zeros: seq<Byte>)
    requires s != [] && s[|s| - 1] != 0xFF
    ensures (s + zeros)[|s| - 1 := s[|s| - 1] + 1] == Increment(s) + zeros
  {
    var b := s[|s| - 1] + 1;
    ReplaceLast(s, zeros, b);
    Regroup(s[..|s| - 1], [b], zeros);
  }

  // With a carry it goes on in front of the byte.
  lemma CarryGoesOn(s: seq<Byte>, zeros: seq<Byte>)
    requires s != [] && s[|s| - 1] == 0xFF
    ensures (s + zeros)[|s| - 1 := 0] == s[..|s| - 1] + ([0] + zeros)
    ensures Increment(s) + zeros == Increment(s[..|s| - 1]) + ([0] + zeros)
  {
    ReplaceLast(s, zeros, 0);
    Regroup(Increment(s[..|s| - 1]), [0], zeros);
  }

  method AddOne(ip: seq<Byte>) returns (next: seq<Byte>)
    ensures next == Increment(ip)
  {
    var bytes := new Byte[|ip|](i requires 0 <= i < |ip| => ip[i]);
    var i := |ip| - 1;
    ghost var zeros: seq<Byte> := [];
    assert ip[..|ip|] == ip;
    while i >= 0
      invariant -1 <= i < |ip|
      invariant bytes[..] == ip[..i + 1] + zeros
      invariant Increment(ip) == Increment(ip[..i + 1]) + zeros
    {
      ghost var before, front := bytes[..], ip[..i + 1];
      NoCarry(front[i]);
      bytes[i] := bytes[i] + 1;
      assert bytes[..] == before[i := front[i] + 1];
      if bytes[i] != 0 {
        CarryStops(front, zeros);
        break;
      }
      CarryGoesOn(front, zeros);
      assert front[..i] == ip[..i];
      zeros := [0] + zeros;
      i := i - 1;
    }
    next := bytes[..];
  }

  method NextIP(ip: Addr) returns (next: Addr)
    ensures next == Addr(Increment(ip.bytes))
  {
    var bytes := AddOne(ip.bytes);
    next := Addr(bytes);
  }

  // ---------------------------------------------------------------- prefixes

  /** The byte whose k highest bits are set. */
  function HighBits(k: nat): Byte
    requires k <= 8
  {
    if k == 0 then 0x00 else if k == 1 then 0x80 else if k == 2 then 0xC0 else if k == 3 then 0xE0
    else if k == 4 then 0xF0 else if k == 5 then 0xF8 else if k == 6 then 0xFC else if k == 7 then 0xFE else 0xFF
  }

  /** Byte i of the mask of a prefix length. */
  function MaskByte(bits: nat, i: nat): Byte {
    if bits >= 8 * (i + 1) then 0xFF else if bits <= 8 * i then 0 else HighBits(bits - 8 * i)
  }

  /** The address with all host bits cleared. */
  function Masked(addr: seq<Byte>, bits: nat): seq<Byte> {
    seq(|addr|, i requires 0 <= i < |addr| => addr[i] & MaskByte(bits, i))
  }

  /** The address with all host bits set. */
  function Last(addr: seq<Byte>, bits: nat): seq<Byte> {
    seq(|addr|, i requires 0 <= i < |addr| => addr[i] | !MaskByte(bits, i))
  }

  // Clearing and setting the low bits of a byte below its 1, 2, ..., 7 highest ones.
  lemma Mask1(b: Byte)
    ensures (b & 0x80) as nat == b as nat - b as nat % 128
  {
  }

  lemma Fill1(b: Byte)
    ensures (b | 0x7F) as nat == b as nat - b as nat % 128 + 127
  {
  }

  lemma Mask2(b: Byte)
    ensures (b & 0xC0) as nat == b as nat - b as nat % 64
  {
  }

  lemma Fill2(b: Byte)
    ensures (b | 0x3F) as nat == b as nat - b as nat % 64 + 63
  {
  }

  lemma Mask3(b: Byte)
    ensures (b & 0xE0) as nat == b as nat - b as nat % 32
  {
  }

  lemma Fill3(b: Byte)
    ensures (b | 0x1F) as nat == b as nat - b as nat % 32 + 31
  {
  }

  lemma Mask4(b: Byte)
    ensures (b & 0xF0) as nat == b as nat - b as nat % 16
  {
  }

  lemma Fill4(b: Byte)
    ensures (b | 0x0F) as nat == b as nat - b as nat % 16 + 15
  {
  }

  lemma Mask5(b: Byte)
    ensures (b & 0xF8) as nat == b as nat - b as nat % 8
  {
  }

  lemma Fill5(b: Byte)
    ensures (b | 0x07) as nat == b as nat - b as nat % 8 + 7
  {
  }

  lemma Mask6(b: Byte)
    ensures (b & 0xFC) as nat == b as nat - b as nat % 4
  {
  }

  lemma Fill6(b: Byte)
    ensures (b | 0x03) as nat == b as nat - b as nat % 4 + 3
  {
  }

  lemma Mask7(b: Byte)
    ensures (b & 0xFE) as nat == b as nat - b as nat % 2
  {
  }

  lemma Fill7(b: Byte)
    ensures (b | 0x01) as nat == b as nat - b as nat % 2 + 1
  {
  }

  lemma SmallPowers()
    ensures Pow2(0) == 1 && Pow2(1) == 2 && Pow2(2) == 4 && Pow2(3) == 8 && Pow2(4) == 16
    ensures Pow2(5) == 32 && Pow2(6) == 64 && Pow2(7) == 128 && Pow2(8) == 256
  {
  }

  lemma MaskedTop(b: Byte, m: Byte, k: nat, p: nat)
    requires 1 <= k <= 4 && p == Pow2(8 - k) && m == HighBits(k)
    ensures (b & m) as nat == b as nat - b as nat % p
  {
    SmallPowers();
    if k == 1 {
      assert p == 128;
      Mask1(b);
    } else if k == 2 {
      assert p == 64;
      Mask2(b);
    } else if k == 3 {
      assert p == 32;
      Mask3(b);
    } else {
      assert p == 16;
      Mask4(b);
    }
  }

  lemma MaskedByte(b: Byte, m: Byte, k: nat, p: nat)
    requires 1 <= k <= 8 && p == Pow2(8 - k) && m == HighBits(k)
    ensures (b & m) as nat == b as nat - b as nat % p
  {
    SmallPowers();
    if k <= 4 {
      MaskedTop(b, m, k, p);
    } else if k == 5 {
      assert p == 8;
      Mask5(b);
    } else if k == 6 {
      assert p == 4;
      Mask6(b);
    } else if k == 7 {
      assert p == 2;
      Mask7(b);
    }
  }

  lemma FilledByte(b: Byte, m: Byte, k: nat, p: nat)
    requires 1 <= k <= 8 && p == Pow2(8 - k) && m == HighBits(k)
    ensures (b | !m) as nat == b as nat - b as nat % p + p - 1
  {
    SmallPowers();
    if k == 1 {
      assert p == 128;
      Fill1(b);
    } else if k == 2 {
      assert p == 64;
      Fill2(b);
    } else if k == 3 {
      assert p == 32;
      Fill3(b);
    } else if k == 4 {
      assert p == 16;
      Fill4(b);
    } else if k == 5 {
      assert p == 8;
      Fill5(b);
    } else if k == 6 {
      assert p == 4;
      Fill6(b);
    } else if k == 7 {
      assert p == 2;
      Fill7(b);
    }
  }

  lemma ModUnique(x: nat, d: nat, q: nat, r: nat)
    requires x == d * q + r && r < d
    ensures x % d == r
  {
    TimesIsProduct(q, d);
    QuotientUnique(x, d, q);
    QuotientIsDivision(x, d);
    assert x == d * (x / d) + x % d;
  }

  lemma ModScale(x: nat, b: nat, p: nat)
    requires 0 < p && b < 256
    ensures (256 * x + b) % (256 * p) == 256 * (x % p) + b
  {
    var q, r := x / p, x % p;
    assert x == p * q + r;
    assert 256 * x + b == (256 * p) * q + (256 * r + b);
    ModUnique(256 * x + b, 256 * p, q, 256 * r + b);
  }

  lemma PowerComplement(k: nat)
    requires k <= 8
    ensures Pow2(8 - k) * Pow2(k) == 256
  {
    SmallPowers();
  }

  lemma ModByte(x: nat, b: nat, p: nat, c: nat)
    requires 0 < p && p * c == 256
    ensures (256 * x + b) % p == b % p
  {
    var q, r := b / p, b % p;
    assert b == p * q + r;
    assert 256 * x == (p * c) * x == p * (c * x);
    assert p * (c * x + q) == p * (c * x) + p * q;
    assert 0 <= c * x + q;
    ModUnique(256 * x + b, p, c * x + q, r);
  }

  // A prefix length past the end of the address masks nothing.
  lemma FullMask(addr: seq<Byte>, bits: nat)
    requires 8 * |addr| <= bits
    ensures Masked(addr, bits) == addr && Last(addr, bits) == addr
  {
  }

  lemma MaskedFront(addr: seq<Byte>, bits: nat)
    requires addr != []
    ensures var n := |addr| - 1; Masked(addr, bits) == Masked(addr[..n], bits) + [addr[n] & MaskByte(bits, n)]
  {
    hide MaskByte;
    var n := |addr| - 1;
    forall i | 0 <= i < n
      ensures Masked(addr, bits)[i] == Masked(addr[..n], bits)[i]
    {
      assert addr[..n][i] == addr[i];
    }
  }

  lemma LastFront(addr: seq<Byte>, bits: nat)
    requires addr != []
    ensures var n := |addr| - 1; Last(addr, bits) == Last(addr[..n], bits) + [addr[n] | !MaskByte(bits, n)]
  {
    hide MaskByte;
    var n := |addr| - 1;
    forall i | 0 <= i < n
      ensures Last(addr, bits)[i] == Last(addr[..n], bits)[i]
    {
      assert addr[..n][i] == addr[i];
    }
  }

  lemma ValueAppend(front: seq<Byte>, last: Byte)
    ensures Value(front + [last]) == 256 * Value(front) + last as nat
  {
    assert (front + [last])[..|front|] == front;
  }

  lemma HostMasked(addr: seq<Byte>, bits: nat)
    requires addr != [] && bits <= 8 * (|addr| - 1)
    ensures Value(Masked(addr, bits)) == 256 * Value(Masked(addr[..|addr| - 1], bits))
  {
    MaskedFront(addr, bits);
    ValueAppend(Masked(addr[..|addr| - 1], bits), 0);
  }

  lemma HostFilled(addr: seq<Byte>, bits: nat)
    requires addr != [] && bits <= 8 * (|addr| - 1)
    ensures Value(Last(addr, bits)) == 256 * Value(Last(addr[..|addr| - 1], bits)) + 255
  {
    LastFront(addr, bits);
    ValueAppend(Last(addr[..|addr| - 1], bits), 0xFF);
  }

  // A byte of host bits only, below a prefix that ends before it.
  lemma HostByte(addr: seq<Byte>, bits: nat)
    requires addr != [] && bits <= 8 * (|addr| - 1)
    requires var front := addr[..|addr| - 1];
      var v, p := Value(front), Pow2(8 * |front| - bits);
      Value(Masked(front, bits)) == v - v % p && Value(Last(front, bits)) == v - v % p + p - 1
    ensures var v, p := Value(addr), Pow2(8 * |addr| - bits);
      Value(Masked(addr, bits)) == v - v % p && Value(Last(addr, bits)) == v - v % p + p - 1
  {
    var n := |addr| - 1;
    var p := Pow2(8 * n - bits);
    HostMasked(addr, bits);
    HostFilled(addr, bits);
    Pow2Bytes(8 * n - bits);
    ModScale(Value(addr[..n]), addr[n] as nat, p);
  }

  // The byte that the end of the prefix falls into.
  lemma EdgeByte(front: seq<Byte>, b: Byte, m: Byte, k: nat, p: nat)
    requires 1 <= k <= 8 && m == HighBits(k) && p == Pow2(8 - k)
    ensures var v := Value(front + [b]);
      Value(front + [b & m]) == v - v % p && Value(front + [b | !m]) == v - v % p + p - 1
  {
    MaskedByte(b, m, k, p);
    FilledByte(b, m, k, p);
    PowerComplement(k);
    ModByte(Value(front), b as nat, p, Pow2(k));
    ValueAppend(front, b);
    ValueAppend(front, b & m);
    ValueAppend(front, b | !m);
  }

  lemma EdgeMasked(addr: seq<Byte>, bits: nat, front: seq<Byte>, b: Byte, m: Byte)
    requires addr == front + [b] && bits >= 8 * |front| && m == MaskByte(bits, |front|)
    ensures Masked(addr, bits) == front + [b & m]
  {
    assert addr[..|front|] == front;
    FullMask(front, bits);
    MaskedFront(addr, bits);
  }

  lemma EdgeFilled(addr: seq<Byte>, bits: nat, front: seq<Byte>, b: Byte, m: Byte)
    requires addr == front + [b] && bits >= 8 * |front| && m == MaskByte(bits, |front|)
    ensures Last(addr, bits) == front + [b | !m]
  {
    assert addr[..|front|] == front;
    FullMask(front, bits);
    LastFront(addr, bits);
  }

  lemma EdgeMask(bits: nat, n: nat, k: nat)
    requires 1 <= k <= 8 && bits == 8 * n + k
    ensures MaskByte(bits, n) == HighBits(k)
  {
  }

  lemma EdgeAddr(addr: seq<Byte>, bits: nat, k: nat, front: seq<Byte>, b: Byte, m: Byte, p: nat)
    requires addr == front + [b] && 1 <= k <= 8 && bits == 8 * |front| + k && m == HighBits(k) && p == Pow2(8 - k)
    ensures var v := Value(addr);
      Value(Masked(addr, bits)) == v - v % p && Value(Last(addr, bits)) == v - v % p + p - 1
  {
    EdgeMask(bits, |front|, k);
    EdgeMasked(addr, bits, front, b, m);
    EdgeFilled(addr, bits, front, b, m);
    EdgeByte(front, b, m, k, p);
  }

  // Masking clears, and LastIP fills, the host bits of the number: for every prefix length,
  // whether or not it ends on a byte boundary.
  lemma {:induction false} PrefixValues(addr: seq<Byte>, bits: nat)
    requires bits <= 8 * |addr|
    ensures |Masked(addr, bits)| == |Last(addr, bits)| == |addr|
    ensures var v, p := Value(addr), Pow2(8 * |addr| - bits);
      Value(Masked(addr, bits)) == v - v % p && Value(Last(addr, bits)) == v - v % p + p - 1
  {
    if addr != [] {
      var n := |addr| - 1;
      if bits <= 8 * n {
        PrefixValues(addr[..n], bits);
        HostByte(addr, bits);
      } else {
        var k := bits - 8 * n;
        assert addr == addr[..n] + [addr[n]];
        EdgeAddr(addr, bits, k, addr[..n], addr[n], HighBits(k), Pow2(8 - k));
      }
    }
  }

  method LastIP(prefix: Prefix) returns (last: Addr)
    requires prefix.Valid()
    ensures last == Addr(Last(prefix.addr.bytes, prefix.bits))
  {
    var addr, n := prefix.addr.bytes, |prefix.addr.bytes|;
    var bytes := new Byte[n](i requires 0 <= i < n => addr[i]);
    for i := 0 to n
      invariant forall k | 0 <= k < n ::
        bytes[k] == if k < i then addr[k] | !MaskByte(prefix.bits, k) else addr[k]
    {
      bytes[i] := bytes[i] | !MaskByte(prefix.bits, i);
    }
    last := Addr(bytes[..]);
  }
}
