/**
 The sending side of a client session (vpn_server/internal/server/types.go and
 packet_processor.go): packets are buffered, encoded when a block is full, and written to
 the connection, where any write may fail.
 */
module FecSession {

  import opened Arithmetic
  import opened Bytes
  import opened FecConfig
  import opened MasqueConn
  import opened Sequences
  import opened Wrappers
  import opened XorEncoder

  /** Go's uint32, and its wrap-around. */
  type Uint32 = n: int | 0 <= n < 0x1_0000_0000

  function Wrap(n: nat): Uint32 {
    n % 0x1_0000_0000
  }

  lemma WrapAdd(m: nat, n: nat)
    ensures Wrap(Wrap(m) + n) == Wrap(m + n)
  {
  }

  /** Buffered packets, the uint32 counter, and everything written to the connection. */
  datatype Pipe = Pipe(buffer: seq<Packet>, seqNum: Uint32, wire: seq<Packet>)

  const EMPTY := Pipe([], 0, [])

  /** One packet for the client; after failAt successful writes, if given, a write fails. */
  datatype Event = Event(packet: Packet, failAt: Option<nat>)

  predicate ValidEncoder(encoder: Option<XOREncoder>) {
    encoder.Some? ==> encoder.value.config.Valid()
  }

  /** How many packets of a group get written before a write fails. */
  function Sent(group: seq<Packet>, failAt: Option<nat>): nat {
    if failAt.Some? && failAt.value < |group| then failAt.value else |group|
  }

  /** The first sent packets of a group are written; the buffer is emptied after the last. */
  function AfterWrites(s: Pipe, group: seq<Packet>, sent: nat): Pipe
    requires sent <= |group|
  {
    Pipe(if sent == |group| then [] else s.buffer, Wrap(s.seqNum + sent), s.wire + group[..sent])
  }

  function EncodeAndSend(encoder: XOREncoder, s: Pipe, failAt: Option<nat>): Pipe
    requires encoder.config.Valid()
  {
    var group := Encoded(encoder.config, s.buffer);
    AfterWrites(s, group, Sent(group, failAt))
  }

  function Forward(encoder: Option<XOREncoder>, s: Pipe, event: Event): Pipe
    requires ValidEncoder(encoder)
  {
    var t := s.(buffer := s.buffer + [event.packet]);
    if encoder.Some? && |t.buffer| >= encoder.value.config.blockSize then EncodeAndSend(encoder.value, t, event.failAt)
    else t
  }

  function Run(encoder: Option<XOREncoder>, events: seq<Event>): Pipe
    requires ValidEncoder(encoder)
  {
    if events == [] then EMPTY
    else Forward(encoder, Run(encoder, events[..|events| - 1]), events[|events| - 1])
  }

  /** The packets handed to the session, in order. */
  function Accepted(events: seq<Event>): seq<Packet> {
    if events == [] then [] else Accepted(events[..|events| - 1]) + [events[|events| - 1].packet]
  }

  predicate NoFailures(events: seq<Event>) {
    forall i | 0 <= i < |events| :: events[i].failAt.None?
  }

  // -------------------------------------------------------- at least once, in order

  /** The buffer is the newest part of what was accepted; all the rest is on the wire, in order. */
  predicate Kept(accepted: seq<Packet>, s: Pipe) {
    && |s.buffer| <= |accepted|
    && accepted == accepted[..|accepted| - |s.buffer|] + s.buffer
    && Subsequence(accepted[..|accepted| - |s.buffer|], s.wire)
    && s.seqNum == |s.wire| % 0x1_0000_0000
  }

  lemma EncodedStartsWithData(config: Config, packets: seq<Packet>)
    requires config.Valid()
    ensures |packets| <= |Encoded(config, packets)| && Encoded(config, packets)[..|packets|] == packets
  {
  }

  // Writing part of a group keeps what was flushed.
  lemma KeptAfterFailure(flushed: seq<Packet>, t: Pipe, group: seq<Packet>, sent: nat)
    requires sent < |group|
    requires Subsequence(flushed, t.wire) && t.seqNum == Wrap(|t.wire|)
    ensures Kept(flushed + t.buffer, AfterWrites(t, group, sent))
  {
    hide Subsequence;
    WrapAdd(|t.wire|, sent);
    SubsequenceWiden(flushed, t.wire, group[..sent]);
    assert (flushed + t.buffer)[..|flushed|] == flushed;
  }

  lemma PutTogether<T>(before: seq<T>, head: seq<T>, whole: seq<T>)
    requires |head| <= |whole| && whole[..|head|] == head
    ensures before + head + whole[|head|..] == before + whole[..|whole|]
  {
    assert whole == head + whole[|head|..];
  }

  // Writing all of it flushes the buffer too.
  lemma KeptAfterSuccess(flushed: seq<Packet>, t: Pipe, group: seq<Packet>)
    requires |t.buffer| <= |group| && group[..|t.buffer|] == t.buffer
    requires Subsequence(flushed, t.wire) && t.seqNum == Wrap(|t.wire|)
    ensures Kept(flushed + t.buffer, AfterWrites(t, group, |group|))
  {
    hide Subsequence;
    var all, rest := flushed + t.buffer, group[|t.buffer|..];
    WrapAdd(|t.wire|, |group|);
    SubsequenceAppend(flushed, t.wire, t.buffer);
    SubsequenceWiden(all, t.wire + t.buffer, rest);
    PutTogether(t.wire, t.buffer, group);
    assert all[..|all|] == all;
  }

  lemma KeptStep(encoder: Option<XOREncoder>, accepted: seq<Packet>, s: Pipe, event: Event)
    requires ValidEncoder(encoder) && Kept(accepted, s)
    ensures Kept(accepted + [event.packet], Forward(encoder, s, event))
  {
    var all, flushed := accepted + [event.packet], accepted[..|accepted| - |s.buffer|];
    var t := s.(buffer := s.buffer + [event.packet]);
    assert all == flushed + t.buffer;
    if encoder.Some? && |t.buffer| >= encoder.value.config.blockSize {
      var group := Encoded(encoder.value.config, t.buffer);
      EncodedStartsWithData(encoder.value.config, t.buffer);
      if Sent(group, event.failAt) < |group| {
        KeptAfterFailure(flushed, t, group, Sent(group, event.failAt));
      } else {
        KeptAfterSuccess(flushed, t, group);
      }
    }
  }

  // Whatever writes fail, and with or without an encoder: every packet accepted is in the
  // buffer or has been written, both in order, and SeqNum counts the writes.
  lemma {:induction false} AtLeastOnce(encoder: Option<XOREncoder>, events: seq<Event>)
    requires ValidEncoder(encoder)
    ensures Kept(Accepted(events), Run(encoder, events))
  {
    if events != [] {
      var front := events[..|events| - 1];
      AtLeastOnce(encoder, front);
      KeptStep(encoder, Accepted(front), Run(encoder, front), events[|events| - 1]);
    }
  }

  // In particular no accepted packet is ever gone.
  lemma EveryPacketKept(encoder: Option<XOREncoder>, events: seq<Event>, packet: Packet)
    requires ValidEncoder(encoder) && packet in Accepted(events)
    ensures var s := Run(encoder, events); packet in s.buffer || packet in s.wire
  {
    var accepted, s := Accepted(events), Run(encoder, events);
    AtLeastOnce(encoder, events);
    SubsequenceMembers(accepted[..|accepted| - |s.buffer|], s.wire);
  }

  // A session whose encoder was never set buffers for ever and writes nothing.
  lemma {:induction false} NoEncoderNoWrites(events: seq<Event>)
    ensures Run(None, events) == Pipe(Accepted(events), 0, [])
  {
    if events != [] {
      NoEncoderNoWrites(events[..|events| - 1]);
    }
  }

  // ------------------------------------------------------------------ failed sends

  /** The buffer that the next packet would be sent from. */
  function NextBuffer(encoder: XOREncoder, events: seq<Event>, packet: Packet): seq<Packet>
    requires encoder.config.Valid()
  {
    Run(Some(encoder), events).buffer + [packet]
  }

  predicate AllSent(encoder: XOREncoder, buffer: seq<Packet>, failAt: Option<nat>)
    requires encoder.config.Valid()
  {
    Sent(Encoded(encoder.config, buffer), failAt) == |Encoded(encoder.config, buffer)|
  }

  /** How many sends have failed since the buffer was last emptied. */
  function FailedSends(encoder: XOREncoder, events: seq<Event>): nat
    requires encoder.config.Valid()
  {
    if events == [] then 0
    else
      var front, last := events[..|events| - 1], events[|events| - 1];
      var buffer := NextBuffer(encoder, front, last.packet);
      if |buffer| < encoder.config.blockSize then FailedSends(encoder, front)
      else if AllSent(encoder, buffer, last.failAt) then 0
      else FailedSends(encoder, front) + 1
  }

  lemma BufferStep(encoder: XOREncoder, front: seq<Event>, last: Event)
    requires encoder.config.Valid()
    ensures var buffer := NextBuffer(encoder, front, last.packet);
      Run(Some(encoder), front + [last]).buffer ==
      if |buffer| >= encoder.config.blockSize && AllSent(encoder, buffer, last.failAt) then [] else buffer
  {
    assert (front + [last])[..|front|] == front;
  }

  // Each failed send leaves one packet more in the buffer than a block has room for.
  lemma {:induction false} BufferLength(encoder: XOREncoder, events: seq<Event>)
    requires encoder.config.Valid()
    ensures var n, f := |Run(Some(encoder), events).buffer|, FailedSends(encoder, events);
      if f == 0 then n < encoder.config.blockSize else n == encoder.config.blockSize - 1 + f
  {
    if events != [] {
      var front, last := events[..|events| - 1], events[|events| - 1];
      assert events == front + [last];
      BufferLength(encoder, front);
      BufferStep(encoder, front, last);
    }
  }

  lemma AcceptedStep(front: seq<Event>, last: Event)
    ensures Accepted(front + [last]) == Accepted(front) + [last.packet]
  {
    assert (front + [last])[..|front|] == front;
  }

  lemma RunStep(encoder: Option<XOREncoder>, front: seq<Event>, last: Event)
    requires ValidEncoder(encoder)
    ensures Run(encoder, front + [last]) == Forward(encoder, Run(encoder, front), last)
  {
    assert (front + [last])[..|front|] == front;
  }

  lemma NoneSent(t: Pipe, group: seq<Packet>)
    requires group != []
    ensures Sent(group, Some(0)) == 0 && AfterWrites(t, group, 0) == t
  {
  }

  lemma AllWritten(t: Pipe, group: seq<Packet>)
    ensures Sent(group, None) == |group| && AfterWrites(t, group, |group|).wire == t.wire + group
  {
    assert group[..|group|] == group;
  }

  // A packet whose send fails at once is buffered and nothing else happens.
  lemma OnlyBuffered(encoder: XOREncoder, s: Pipe, packet: Packet)
    requires encoder.config.Valid()
    ensures Forward(Some(encoder), s, Event(packet, Some(0))) == s.(buffer := s.buffer + [packet])
  {
    var t := s.(buffer := s.buffer + [packet]);
    EncodedStartsWithData(encoder.config, t.buffer);
    NoneSent(t, Encoded(encoder.config, t.buffer));
  }

  lemma HandedOn(encoder: XOREncoder, front: seq<Event>, last: Event, accepted: seq<Packet>, s: Pipe)
    requires encoder.config.Valid()
    requires Accepted(front) == accepted && Run(Some(encoder), front) == s
    ensures Accepted(front + [last]) == accepted + [last.packet]
    ensures Run(Some(encoder), front + [last]) == Forward(Some(encoder), s, last)
  {
    AcceptedStep(front, last);
    RunStep(Some(encoder), front, last);
  }

  /** The last event finds the buffer full, and a write of its group fails. */
  predicate Fails(encoder: XOREncoder, front: seq<Event>, last: Event)
    requires encoder.config.Valid()
  {
    var buffer := NextBuffer(encoder, front, last.packet);
    |buffer| >= encoder.config.blockSize && !AllSent(encoder, buffer, last.failAt)
  }

  /** Writes fail only after so many have succeeded that the connection's queue can be full. */
  predicate Late(encoder: XOREncoder, events: seq<Event>)
    requires encoder.config.Valid()
  {
    if events == [] then true
    else
      var front, last := events[..|events| - 1], events[|events| - 1];
      Late(encoder, front) && (Fails(encoder, front, last) ==> CAPACITY <= |Run(Some(encoder), events).wire|)
  }

  /** The buffer is empty, and the connection's queue can be full. */
  predicate Primed(encoder: XOREncoder, events: seq<Event>)
    requires encoder.config.Valid()
  {
    && Late(encoder, events) && Run(Some(encoder), events).buffer == []
    && CAPACITY <= |Run(Some(encoder), events).wire|
  }

  lemma LateStep(encoder: XOREncoder, front: seq<Event>, last: Event)
    requires encoder.config.Valid()
    ensures Late(encoder, front + [last]) <==>
            && Late(encoder, front)
            && (Fails(encoder, front, last) ==> CAPACITY <= |Run(Some(encoder), front + [last]).wire|)
  {
    hide Run, Fails;
    assert (front + [last])[..|front|] == front;
  }

  // As long as every send fails at once, packets pile up in the buffer.
  lemma {:induction false} PileUp(encoder: XOREncoder, before: seq<Event>, packets: seq<Packet>)
    returns (events: seq<Event>)
    requires encoder.config.Valid() && Primed(encoder, before)
    ensures Accepted(before + events) == Accepted(before) + packets && Late(encoder, before + events)
    ensures Run(Some(encoder), before + events) == Run(Some(encoder), before).(buffer := packets)
  {
    hide Run, Accepted, Late, Fails;
    if packets == [] {
      events := [];
      assert before + events == before;
    } else {
      var front, last := packets[..|packets| - 1], packets[|packets| - 1];
      assert packets == front + [last];
      events := PileUp(encoder, before, front);
      var s, event := Run(Some(encoder), before).(buffer := front), Event(last, Some(0));
      HandedOn(encoder, before + events, event, Accepted(before) + front, s);
      LateStep(encoder, before + events, event);
      OnlyBuffered(encoder, s, last);
      assert before + (events + [event]) == before + events + [event];
      events := events + [event];
    }
  }

  // A full buffer is sent as one group when no write fails.
  lemma SentWhole(encoder: XOREncoder, s: Pipe, packet: Packet)
    requires encoder.config.Valid() && |s.buffer| + 1 >= encoder.config.blockSize
    ensures Forward(Some(encoder), s, Event(packet, None)).wire ==
            s.wire + Encoded(encoder.config, s.buffer + [packet])
  {
    var t := s.(buffer := s.buffer + [packet]);
    AllWritten(t, Encoded(encoder.config, t.buffer));
  }

  // Once the queue can be full, any list of at least a block of packets can be what the next
  // group on the wire is made of.
  lemma AnyGroupIsReachable(encoder: XOREncoder, before: seq<Event>, packets: seq<Packet>)
    returns (events: seq<Event>)
    requires encoder.config.Valid() && Primed(encoder, before) && |packets| >= encoder.config.blockSize
    ensures Accepted(before + events) == Accepted(before) + packets && Late(encoder, before + events)
    ensures Run(Some(encoder), before + events).wire ==
            Run(Some(encoder), before).wire + Encoded(encoder.config, packets)
  {
    hide Run, Accepted, Late, Fails, Encoded, Forward;
    var front, last := packets[..|packets| - 1], packets[|packets| - 1];
    assert packets == front + [last];
    events := PileUp(encoder, before, front);
    var s, event := Run(Some(encoder), before).(buffer := front), Event(last, None);
    HandedOn(encoder, before + events, event, Accepted(before) + front, s);
    SentWhole(encoder, s, last);
    LateStep(encoder, before + events, event);
    assert before + (events + [event]) == before + events + [event];
    events := events + [event];
  }

  // ------------------------------------------------------------- failure-free runs

  /** The groups for the first g blocks of a stream. */
  function Groups(config: Config, stream: seq<Packet>, g: nat): seq<seq<Packet>>
    requires config.Valid()
  {
    seq(g, b requires 0 <= b < g => Encoded(config, Block(stream, config.blockSize, b)))
  }

  lemma GroupsOfPrefix(config: Config, stream: seq<Packet>, more: Packet, g: nat)
    requires config.Valid() && Times(g, config.blockSize) <= |stream|
    ensures Groups(config, stream + [more], g) == Groups(config, stream, g)
  {
    forall b: nat | b < g
      ensures Block(stream + [more], config.blockSize, b) == Block(stream, config.blockSize, b)
    {
      TimesMonotone(b, g, config.blockSize);
    }
  }

  /** After g full blocks: their groups are on the wire and the buffer holds the rest. */
  predicate Exact(config: Config, stream: seq<Packet>, s: Pipe, g: nat)
    requires config.Valid()
  {
    && Times(g, config.blockSize) <= |stream| < Times(g, config.blockSize) + config.blockSize
    && stream == stream[..Times(g, config.blockSize)] + s.buffer
    && s.wire == Flatten(Groups(config, stream, g))
  }

  lemma SplitOneMore<T>(s: seq<T>, k: nat, rest: seq<T>, x: T)
    requires k <= |s| && s == s[..k] + rest
    ensures s + [x] == (s + [x])[..k] + (rest + [x])
  {
    assert (s + [x])[..k] == s[..k];
  }

  lemma ExactBuffered(config: Config, stream: seq<Packet>, s: Pipe, g: nat, packet: Packet)
    requires config.Valid() && Exact(config, stream, s, g)
    ensures var all, t := stream + [packet], s.(buffer := s.buffer + [packet]);
      && |all| <= Times(g, config.blockSize) + config.blockSize
      && all == all[..Times(g, config.blockSize)] + t.buffer && t.wire == Flatten(Groups(config, all, g))
      && (|t.buffer| < config.blockSize ==> Exact(config, all, t, g))
      && (|t.buffer| >= config.blockSize ==> |all| == Times(g, config.blockSize) + config.blockSize)
  {
    SplitOneMore(stream, Times(g, config.blockSize), s.buffer, packet);
    GroupsOfPrefix(config, stream, packet, g);
  }

  lemma ExactSend(config: Config, all: seq<Packet>, t: Pipe, g: nat)
    requires config.Valid() && |all| == Times(g, config.blockSize) + config.blockSize
    requires all == all[..Times(g, config.blockSize)] + t.buffer && t.wire == Flatten(Groups(config, all, g))
    ensures var group := Encoded(config, t.buffer);
      Exact(config, all, AfterWrites(t, group, |group|), g + 1)
  {
    var blockSize: nat := config.blockSize;
    assert Block(all, blockSize, g) == t.buffer;
    var group := Encoded(config, t.buffer);
    assert group[..|group|] == group;
    assert Groups(config, all, g + 1)[..g] == Groups(config, all, g);
  }

  lemma ExactStep(encoder: XOREncoder, stream: seq<Packet>, s: Pipe, g: nat, packet: Packet) returns (h: nat)
    requires encoder.config.Valid() && Exact(encoder.config, stream, s, g)
    ensures Exact(encoder.config, stream + [packet], Forward(Some(encoder), s, Event(packet, None)), h)
  {
    var all, t := stream + [packet], s.(buffer := s.buffer + [packet]);
    ExactBuffered(encoder.config, stream, s, g, packet);
    if |t.buffer| >= encoder.config.blockSize {
      h := g + 1;
      ExactSend(encoder.config, all, t, g);
    } else {
      h := g;
    }
  }

  lemma {:induction false} ExactRun(encoder: XOREncoder, events: seq<Event>) returns (g: nat)
    requires encoder.config.Valid() && NoFailures(events)
    ensures Exact(encoder.config, Accepted(events), Run(Some(encoder), events), g)
  {
    if events == [] {
      g := 0;
    } else {
      var front, last := events[..|events| - 1], events[|events| - 1];
      var f := ExactRun(encoder, front);
      g := ExactStep(encoder, Accepted(front), Run(Some(encoder), front), f, last.packet);
    }
  }

  // Without write failures the wire is exactly one group per full block, in order, and the
  // fewer than blockSize packets left over wait in the buffer.
  lemma WireIsGroups(encoder: XOREncoder, events: seq<Event>)
    requires encoder.config.Valid() && NoFailures(events)
    ensures var s, stream := Run(Some(encoder), events), Accepted(events);
      var g := Quotient(|stream|, encoder.config.blockSize);
      && s.wire == Flatten(Groups(encoder.config, stream, g))
      && Times(g, encoder.config.blockSize) <= |stream|
      && stream == stream[..Times(g, encoder.config.blockSize)] + s.buffer
      && |s.buffer| < encoder.config.blockSize
  {
    var g := ExactRun(encoder, events);
    QuotientUnique(|Accepted(events)|, encoder.config.blockSize, g);
  }

  lemma WireOnly(encoder: XOREncoder, events: seq<Event>, g: nat)
    requires encoder.config.Valid() && NoFailures(events)
    requires g == Quotient(|Accepted(events)|, encoder.config.blockSize)
    ensures Run(Some(encoder), events).wire == Flatten(Groups(encoder.config, Accepted(events), g))
    ensures Times(g, encoder.config.blockSize) <= |Accepted(events)|
  {
    WireIsGroups(encoder, events);
  }

  /** n packets, all alike, handed on without a failure. */
  function Steady(packet: Packet, n: nat): seq<Event> {
    seq(n, _ => Event(packet, None))
  }

  lemma {:induction false} SteadyAccepted(packet: Packet, n: nat)
    ensures Accepted(Steady(packet, n)) == seq(n, _ => packet)
  {
    if n > 0 {
      SteadyAccepted(packet, n - 1);
      AcceptedStep(Steady(packet, n - 1), Event(packet, None));
      assert Steady(packet, n) == Steady(packet, n - 1) + [Event(packet, None)];
    }
  }

  lemma {:induction false} SteadyLate(encoder: XOREncoder, events: seq<Event>)
    requires encoder.config.Valid() && NoFailures(events)
    ensures Late(encoder, events)
  {
    if events != [] {
      SteadyLate(encoder, events[..|events| - 1]);
    }
  }

  // Full blocks leave the buffer empty, and as many of them as the queue has places fill it.
  lemma SteadyFills(encoder: XOREncoder, packet: Packet) returns (n: nat)
    requires encoder.config.Valid()
    ensures Primed(encoder, Steady(packet, n))
  {
    hide Run, Accepted, Late, Groups, Flatten, Subsequence;
    n := Times(CAPACITY, encoder.config.blockSize);
    TimesLarger(CAPACITY, 1, encoder.config.blockSize);
    TimesIsProduct(CAPACITY, 1);
    SteadyAccepted(packet, n);
    SteadyLate(encoder, Steady(packet, n));
    QuotientUnique(n, encoder.config.blockSize, CAPACITY);
    WireIsGroups(encoder, Steady(packet, n));
    AtLeastOnce(Some(encoder), Steady(packet, n));
    var accepted, s := Accepted(Steady(packet, n)), Run(Some(encoder), Steady(packet, n));
    SubsequenceMembers(accepted[..|accepted| - |s.buffer|], s.wire);
  }

  // ------------------------------------------------------------ implementation

  lemma OnTheWay(sent: seq<Packet>, before: seq<Packet>, after: seq<Packet>)
    requires Subsequence(sent, before) && before <= after
    ensures Subsequence(sent, after)
  {
    SubsequenceWiden(sent, before, after[|before|..]);
  }

  lemma OneMoreOnTheWay(sent: seq<Packet>, before: seq<Packet>, after: seq<Packet>, packet: Packet)
    requires Subsequence(sent, before) && before < after && after[|after| - 1] == packet
    ensures Subsequence(sent + [packet], after)
  {
    OnTheWay(sent, before, after[..|after| - 1]);
    SubsequenceAppend(sent, after[..|after| - 1], [packet]);
    assert after == after[..|after| - 1] + [packet];
  }

  lemma PrefixOfPrefix<T>(a: seq<T>, b: seq<T>, c: seq<T>)
    requires a <= b <= c
    ensures a <= c
  {
  }

  lemma OneMoreSent<T>(before: seq<T>, group: seq<T>, n: nat)
    requires n < |group|
    ensures before + group[..n] + [group[n]] == before + group[..n + 1]
  {
  }

  lemma WrapNothing(n: Uint32)
    ensures Wrap(n) == n
  {
  }

  class ClientSession {
    const conn: MASQUEConn?
    const encoder: Option<XOREncoder>
    const fecEnabled: bool
    var packetBuffer: seq<Packet>
    var seqNum: Uint32
    /** What this session has written; the connection may carry other packets too. */
    ghost var wire: seq<Packet>

    constructor (conn: MASQUEConn?, encoder: Option<XOREncoder>, fecEnabled: bool)
      ensures this.conn == conn && this.encoder == encoder && this.fecEnabled == fecEnabled
      ensures View() == EMPTY && (conn != null ==> Carried())
    {
      this.conn, this.encoder, this.fecEnabled := conn, encoder, fecEnabled;
      packetBuffer, seqNum, wire := [], 0, [];
    }

    ghost function View(): Pipe
      reads this
    {
      Pipe(packetBuffer, seqNum, wire)
    }

    /** The session's packets are among the connection's, in order. */
    ghost predicate Carried()
      requires conn != null
      reads this, conn
    {
      Subsequence(wire, conn.written)
    }

    /**
     Why a write fails, with an error or by a panic: the connection is closed, or its queue is
     still full at the timeout.
     */
    predicate Blocked()
      requires conn != null
      reads this, conn
    {
      conn.closed || |conn.writeChan| >= CAPACITY
    }

    method EncodeAndSendBlock() returns (ok: bool, ghost failAt: Option<nat>)
      requires conn != null && !conn.panicked && Carried() && ValidEncoder(encoder)
      modifies this, conn
      ensures Carried() && old(conn.written) <= conn.written
      ensures encoder.None? ==> !ok && View() == old(View())
      ensures encoder.Some? ==> View() == EncodeAndSend(encoder.value, old(View()), failAt)
      ensures encoder.Some? ==> (ok <==> failAt.None?)
      ensures encoder.Some? && !ok ==> failAt.value < |Encoded(encoder.value.config, old(packetBuffer))| && Blocked()
    {
      failAt := None;
      if encoder.None? {
        return false, failAt;
      }
      var encoded := Encode(encoder.value, packetBuffer);
      var sent := WriteGroup(encoded);
      ok := sent == |encoded|;
      if !ok {
        failAt := Some(sent);
        return;
      }
      packetBuffer := [];
    }

    // Writes the packets one by one until a write fails; sent is the number written.
    method WriteGroup(encoded: seq<Packet>) returns (sent: nat)
      requires conn != null && !conn.panicked && Carried()
      modifies this`seqNum, this`wire, conn
      ensures Carried() && old(conn.written) <= conn.written
      ensures sent <= |encoded| && wire == old(wire) + encoded[..sent]
      ensures seqNum == Wrap(old(seqNum) + sent)
      ensures sent < |encoded| ==> Blocked()
    {
      hide Subsequence, Wrap;
      sent := 0;
      WrapNothing(seqNum);
      while sent < |encoded|
        invariant Carried() && old(conn.written) <= conn.written
        invariant sent <= |encoded| && wire == old(wire) + encoded[..sent]
        invariant seqNum == Wrap(old(seqNum) + sent) && !conn.panicked
      {
        ghost var before := conn.written;
        var ok := Write(encoded[sent]);
        PrefixOfPrefix(old(conn.written), before, conn.written);
        if !ok {
          return;
        }
        OneMoreSent(old(wire), encoded, sent);
        WrapAdd(old(seqNum) + sent, 1);
        seqNum := Wrap(seqNum + 1);
        sent := sent + 1;
      }
    }

    method Write(packet: Packet) returns (ok: bool)
      requires conn != null && !conn.panicked && Carried()
      modifies this`wire, conn
      ensures Carried() && old(conn.written) <= conn.written
      ensures wire == if ok then old(wire) + [packet] else old(wire)
      ensures !ok ==> Blocked()
      ensures ok ==> !conn.panicked
    {
      ghost var before := conn.written;
      var outcome, _ := conn.WritePacket(packet);
      ok := outcome == Written;
      if ok {
        OneMoreOnTheWay(wire, before, conn.written, packet);
        wire := wire + [packet];
      } else {
        OnTheWay(wire, before, conn.written);
      }
    }

    // ok is false when the code returns an error, or the write panics and nothing follows.
    method ForwardPacketWithFEC(packet: Packet) returns (ok: bool, ghost failAt: Option<nat>)
      requires conn != null && !conn.panicked && Carried() && ValidEncoder(encoder)
      modifies this, conn
      ensures Carried() && old(conn.written) <= conn.written
      ensures View() == Forward(encoder, old(View()), Event(packet, failAt))
      ensures ok <==> failAt.None?
      ensures !ok ==> Blocked()
    {
      ok, failAt := true, None;
      packetBuffer := packetBuffer + [packet];
      if encoder.Some? && |packetBuffer| >= encoder.value.config.blockSize {
        ok, failAt := EncodeAndSendBlock();
      }
    }

    method ForwardPacketToClient(packet: Packet) returns (ok: bool, ghost failAt: Option<nat>)
      requires ValidEncoder(encoder) && (conn != null ==> !conn.panicked && Carried())
      modifies this, conn
      ensures conn != null ==> Carried() && old(conn.written) <= conn.written
      ensures conn == null ==> !ok && View() == old(View())
      ensures conn != null && fecEnabled ==> View() == Forward(encoder, old(View()), Event(packet, failAt))
      ensures conn != null && !fecEnabled ==>
        View() == old(View()).(wire := if ok then old(wire) + [packet] else old(wire))
      ensures conn != null && !ok ==> Blocked()
    {
      failAt := None;
      if conn == null {
        return false, failAt;
      }
      if fecEnabled {
        ok, failAt := ForwardPacketWithFEC(packet);
      } else {
        ok := Write(packet);
      }
    }
  }
}
