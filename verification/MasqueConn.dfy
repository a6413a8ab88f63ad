/**
 The server-side connection (common/masque_connectip.go, channel path): two bounded
 queues and a goroutine that moves packets between them and drops on overflow. Writers,
 the forwarder, readers and Close interleave in any order.
 */
module MasqueConn {

  import opened Bytes
  import opened Sequences
  import opened Wrappers

  const CAPACITY: nat := 100

  /**
   senders holds the packets of the WritePacket calls that have seen the connection open
   and have not sent yet, readers counts the ReadPacket calls that wait likewise; held is
   the packet the forwarder has taken and not passed on; written and read are the histories
   of what entered writeChan and left readChan, and emptyReads counts the reads that ended
   with nothing, and without an error, because readChan was closed while they waited.
   */
  datatype Channels = Channels(
    closed: bool,
    panicked: bool,
    senders: multiset<Packet>,
    readers: nat,
    writeChan: seq<Packet>,
    held: Option<Packet>,
    readChan: seq<Packet>,
    written: seq<Packet>,
    read: seq<Packet>,
    emptyReads: nat)

  const FRESH := Channels(false, false, multiset{}, 0, [], None, [], [], [], 0)

  datatype Step =
    | BeginWrite(packet: Packet)  // WritePacket: the closed check
    | Send(packet: Packet)        // WritePacket: the send on writeChan
    | GiveUp(packet: Packet)      // WritePacket: the timeout
    | Take                        // forwarder: receive from writeChan
    | Put                         // forwarder: pass on, or drop if readChan is full
    | BeginRead                   // ReadPacket: the closed check
    | Receive                     // ReadPacket: receive from readChan
    | GiveUpRead                  // ReadPacket: the timeout
    | Close

  /**
   One step; a step that cannot happen leaves the state alone. A panic ends everything, as one
   of the forwarder or of a write from processPackets does; a write from proxyTunToClient
   recovers from it, and what happens after that is not followed.
   */
  function Next(c: Channels, step: Step): Channels {
    if c.panicked then c
    else
      match step
      case BeginWrite(p) => if c.closed then c else c.(senders := c.senders + multiset{p})
      case Send(p) =>
        if p !in c.senders then c
        else if c.closed then c.(panicked := true)
        else if |c.writeChan| >= CAPACITY then c
        else c.(senders := c.senders - multiset{p}, writeChan := c.writeChan + [p], written := c.written + [p])
      case GiveUp(p) => c.(senders := c.senders - multiset{p})
      case Take =>
        if c.held.Some? || c.writeChan == [] then c
        else c.(held := Some(c.writeChan[0]), writeChan := c.writeChan[1..])
      case Put =>
        if c.held.None? then c
        else if c.closed then c.(panicked := true)
        else if |c.readChan| >= CAPACITY then c.(held := None)
        else c.(held := None, readChan := c.readChan + [c.held.value])
      case BeginRead => if c.closed then c else c.(readers := c.readers + 1)
      case Receive =>
        if c.readers == 0 then c
        else if c.readChan != [] then
          c.(readers := c.readers - 1, readChan := c.readChan[1..], read := c.read + [c.readChan[0]])
        else if c.closed then c.(readers := c.readers - 1, emptyReads := c.emptyReads + 1)
        else c
      case GiveUpRead => if c.readers == 0 then c else c.(readers := c.readers - 1)
      case Close => c.(closed := true)
  }

  function Run(c: Channels, steps: seq<Step>): Channels {
    if steps == [] then c else Next(Run(c, steps[..|steps| - 1]), steps[|steps| - 1])
  }

  lemma RunNone(c: Channels)
    ensures Run(c, []) == c
  {
  }

  lemma RunOne(c: Channels, step: Step)
    ensures Run(c, [step]) == Next(c, step)
  {
    assert [step][..0] == [];
  }

  lemma RunTwo(c: Channels, first: Step, second: Step)
    ensures Run(c, [first, second]) == Next(Next(c, first), second)
  {
    assert [first, second][..1] == [first];
    RunOne(c, first);
  }

  lemma RunAppend(c: Channels, steps: seq<Step>, step: Step)
    ensures Run(c, steps + [step]) == Next(Run(c, steps), step)
  {
    assert (steps + [step])[..|steps|] == steps;
  }

  lemma {:induction false} RunConcat(c: Channels, a: seq<Step>, b: seq<Step>)
    ensures Run(c, a + b) == Run(Run(c, a), b)
  {
    if b == [] {
      assert a + b == a;
    } else {
      RunConcat(c, a, b[..|b| - 1]);
      assert (a + b)[..|a + b| - 1] == a + b[..|b| - 1];
    }
  }

  function Held(c: Channels): seq<Packet> {
    if c.held.Some? then [c.held.value] else []
  }

  /** Everything that was read, then everything in flight, oldest first. */
  function Trail(c: Channels): seq<Packet> {
    c.read + (c.readChan + (Held(c) + c.writeChan))
  }

  // ----------------------------------------------------------- ordered delivery

  predicate Ordered(c: Channels) {
    && |c.writeChan| <= CAPACITY && |c.readChan| <= CAPACITY
    && Subsequence(Trail(c), c.written)
  }

  // Only a send adds to the trail, and only a drop takes from it.
  lemma TrailStep(c: Channels, step: Step)
    ensures var d := Next(c, step);
      || (d.written == c.written && Trail(d) == Trail(c))
      || (step.Send? && d.written == c.written + [step.packet] && Trail(d) == Trail(c) + [step.packet])
      || (step.Put? && c.held.Some? && |c.readChan| >= CAPACITY && d == c.(held := None))
  {
    var d := Next(c, step);
    match step
    case Send(p) =>
      if d.written != c.written {
        assert Held(c) + (c.writeChan + [p]) == Held(c) + c.writeChan + [p];
        assert c.readChan + (Held(c) + c.writeChan + [p]) == c.readChan + (Held(c) + c.writeChan) + [p];
      }
    case Take =>
      assert Held(d) + d.writeChan == Held(c) + c.writeChan;
    case Put =>
      if d.readChan != c.readChan {
        assert d.readChan + (Held(d) + d.writeChan) == c.readChan + (Held(c) + c.writeChan);
      }
    case Receive =>
      if d.readChan != c.readChan {
        var rest := Held(c) + c.writeChan;
        assert d.read + (d.readChan + rest) == c.read + (c.readChan + rest);
      }
    case _ =>
  }

  lemma DropStep(c: Channels)
    requires c.held.Some? && Subsequence(Trail(c), c.written)
    ensures Subsequence(Trail(c.(held := None)), c.written)
  {
    var a, x := c.read + c.readChan, c.held.value;
    assert Trail(c) == a + [x] + c.writeChan;
    SubsequenceWithout(a, x, c.writeChan, c.written);
    assert Trail(c.(held := None)) == a + c.writeChan;
  }

  lemma OrderedStep(c: Channels, step: Step)
    requires Ordered(c)
    ensures Ordered(Next(c, step))
  {
    TrailStep(c, step);
    if step.Send? {
      SubsequenceAppend(Trail(c), c.written, [step.packet]);
    } else if c.held.Some? {
      DropStep(c);
    }
  }

  // In every reachable state the packets read, then the ones in flight, are packets that
  // were written, in the order they were written; and at most 201 are in flight.
  lemma {:induction false} DeliveredInOrder(steps: seq<Step>)
    ensures Ordered(Run(FRESH, steps))
    ensures |Trail(Run(FRESH, steps))| <= |Run(FRESH, steps).read| + 201
  {
    if steps != [] {
      DeliveredInOrder(steps[..|steps| - 1]);
      OrderedStep(Run(FRESH, steps[..|steps| - 1]), steps[|steps| - 1]);
    }
  }

  /** In no state of the run are more than CAPACITY written packets unread. */
  predicate ReaderKeepsUp(steps: seq<Step>) {
    var c := Run(FRESH, steps);
    |c.written| <= |c.read| + CAPACITY && (steps == [] || ReaderKeepsUp(steps[..|steps| - 1]))
  }

  // If the reader keeps up, nothing is ever dropped.
  lemma {:induction false} NothingDropped(steps: seq<Step>)
    requires ReaderKeepsUp(steps)
    ensures var c := Run(FRESH, steps); c.written == Trail(c)
  {
    if steps != [] {
      var front := steps[..|steps| - 1];
      NothingDropped(front);
      TrailStep(Run(FRESH, front), steps[|steps| - 1]);
    }
  }

  // --------------------------------------------------------------- the forwarder

  function FirstHundred(packets: seq<Packet>): seq<Packet> {
    if |packets| <= 100 then packets else packets[..100]
  }

  lemma FirstHundredTwice(a: seq<Packet>, b: seq<Packet>)
    ensures FirstHundred(FirstHundred(a) + b) == FirstHundred(a + b)
  {
    if |a| > 100 {
      assert (FirstHundred(a) + b)[..100] == (a + b)[..100];
    }
  }

  // The forwarder never waits for a reader: what does not fit the queue of 100 is dropped.
  lemma PutPassesOn(c: Channels)
    requires !c.closed && !c.panicked && |c.readChan| <= 100
    ensures Next(c, Put) == c.(held := None, readChan := FirstHundred(c.readChan + Held(c)))
  {
    assert c.readChan + [] == c.readChan;
    if c.held.Some? && |c.readChan| == 100 {
      assert (c.readChan + Held(c))[..100] == c.readChan;
    }
  }

  predicate Forwards(steps: seq<Step>) {
    forall i | 0 <= i < |steps| :: steps[i].Take? || steps[i].Put?
  }

  lemma TakeTakes(c: Channels)
    requires !c.panicked && c.held.None? && c.writeChan != []
    ensures Next(c, Take) == c.(held := Some(c.writeChan[0]), writeChan := c.writeChan[1..])
  {
  }

  // Left to itself in any open state, it empties the write queue: the oldest packets that fit
  // the read queue end up there, in order, and the others are gone.
  lemma {:induction false} ForwarderDrains(c: Channels) returns (steps: seq<Step>)
    requires !c.closed && !c.panicked && |c.readChan| <= 100
    ensures Forwards(steps)
    ensures Run(c, steps) ==
            c.(held := None, writeChan := [], readChan := FirstHundred(c.readChan + (Held(c) + c.writeChan)))
    decreases |c.writeChan|
  {
    hide Run, Next;
    PutPassesOn(c);
    RunOne(c, Put);
    steps := [Put];
    if c.writeChan == [] {
      assert Held(c) + c.writeChan == Held(c);
    } else {
      var put, all := Next(c, Put), c.readChan + (Held(c) + c.writeChan);
      var taken := put.(held := Some(c.writeChan[0]), writeChan := c.writeChan[1..]);
      TakeTakes(put);
      RunTwo(c, Put, Take);
      var rest := ForwarderDrains(taken);
      RunConcat(c, [Put, Take], rest);
      steps := [Put, Take] + rest;
      assert Held(taken) + taken.writeChan == c.writeChan;
      assert c.readChan + Held(c) + c.writeChan == all;
      FirstHundredTwice(c.readChan + Held(c), c.writeChan);
    }
  }

  // So a writer that waits in an open state can always be served, without any reader.
  lemma WriterServed(c: Channels, p: Packet) returns (steps: seq<Step>)
    requires !c.closed && !c.panicked && |c.readChan| <= 100 && p in c.senders
    ensures Forwards(steps)
    ensures Run(c, steps + [Send(p)]).written == c.written + [p]
  {
    steps := ForwarderDrains(c);
    RunAppend(c, steps, Send(p));
  }

  function Receives(k: nat): seq<Step> {
    seq(k, _ => Receive)
  }

  // Waiting readers get what is in the read queue, oldest first, closed or not.
  lemma {:induction false} ReceiveAll(c: Channels, k: nat)
    requires !c.panicked && k <= c.readers && k <= |c.readChan|
    ensures Run(c, Receives(k)) ==
            c.(readers := c.readers - k, readChan := c.readChan[k..], read := c.read + c.readChan[..k])
  {
    if k > 0 {
      ReceiveAll(c, k - 1);
      RunAppend(c, Receives(k - 1), Receive);
      assert Receives(k) == Receives(k - 1) + [Receive];
      assert c.readChan[..k] == c.readChan[..k - 1] + [c.readChan[k - 1]];
    }
  }

  // From any open state: what is in flight reaches as many readers as wait, oldest first, up
  // to the hundred packets that the read queue holds.
  lemma InFlightIsRead(c: Channels, k: nat) returns (steps: seq<Step>)
    requires !c.closed && !c.panicked && |c.readChan| <= 100
    requires k <= c.readers && k <= |FirstHundred(c.readChan + (Held(c) + c.writeChan))|
    ensures Forwards(steps)
    ensures Run(c, steps + Receives(k)).read ==
            c.read + FirstHundred(c.readChan + (Held(c) + c.writeChan))[..k]
  {
    hide Run, Next;
    steps := ForwarderDrains(c);
    ReceiveAll(Run(c, steps), k);
    RunConcat(c, steps, Receives(k));
  }

  // Close takes nothing from the readers that wait: they still get what is in the read queue.
  lemma ReadAfterClose(c: Channels, k: nat)
    requires !c.panicked && k <= c.readers && k <= |c.readChan|
    ensures Run(c, [Close] + Receives(k)).read == c.read + c.readChan[..k]
  {
    RunOne(c, Close);
    ReceiveAll(Next(c, Close), k);
    RunConcat(c, [Close], Receives(k));
  }

  /** An open run in which nothing is read. */
  predicate Unread(steps: seq<Step>) {
    forall i | 0 <= i < |steps| :: !steps[i].Receive? && !steps[i].Close?
  }

  lemma PrefixGrows<T>(a: seq<T>, b: seq<T>, x: T)
    requires a <= b
    ensures a <= b + [x]
  {
  }

  lemma UnreadStep(c: Channels, step: Step)
    requires !step.Receive? && !step.Close?
    requires !c.closed && !c.panicked && c.read == [] && |c.readChan| <= 100 && c.readChan <= c.written
    requires |c.readChan| < 100 ==> c.written == c.readChan + (Held(c) + c.writeChan)
    ensures var d := Next(c, step);
      && !d.closed && !d.panicked && d.read == [] && |d.readChan| <= 100 && d.readChan <= d.written
      && (|d.readChan| < 100 ==> d.written == d.readChan + (Held(d) + d.writeChan))
  {
    match step
    case Send(p) =>
      PrefixGrows(c.readChan, c.written, p);
      assert Held(c) + (c.writeChan + [p]) == Held(c) + c.writeChan + [p];
    case Take =>
      if c.held.None? && c.writeChan != [] {
        assert [c.writeChan[0]] + c.writeChan[1..] == Held(c) + c.writeChan;
      }
    case Put =>
      if c.held.Some? && |c.readChan| < 100 {
        assert c.readChan + [c.held.value] + c.writeChan == c.written;
      }
    case BeginWrite(p) =>
    case GiveUp(p) =>
    case BeginRead =>
    case GiveUpRead =>
  }

  // If nobody reads, the read queue holds the first packets that were written and no others,
  // and none is dropped before it holds a hundred.
  lemma {:induction false} UnreadKeepsOldest(steps: seq<Step>)
    requires Unread(steps)
    ensures var c := Run(FRESH, steps);
      && !c.closed && !c.panicked && c.read == [] && |c.readChan| <= 100 && c.readChan <= c.written
      && (|c.readChan| < 100 ==> c.written == c.readChan + (Held(c) + c.writeChan))
  {
    if steps != [] {
      var front := steps[..|steps| - 1];
      UnreadKeepsOldest(front);
      UnreadStep(Run(FRESH, front), steps[|steps| - 1]);
    }
  }

  // --------------------------------------------------------------- closing down

  /** Nothing is on its way to a channel any more. */
  predicate Quiet(c: Channels) {
    c.senders == multiset{} && c.writeChan == [] && c.held.None?
  }

  lemma {:induction false} QuietStaysSafe(c: Channels, steps: seq<Step>)
    requires c.closed && !c.panicked && Quiet(c)
    ensures var d := Run(c, steps); d.closed && !d.panicked && Quiet(d)
  {
    if steps != [] {
      QuietStaysSafe(c, steps[..|steps| - 1]);
    }
  }

  // Once Close has closed both channels, some continuation panics on a send to a closed
  // channel exactly when a writer or the forwarder still had a packet to pass on.
  lemma CloseIsSafeWhenQuiet(c: Channels)
    requires c.closed && !c.panicked
    ensures (exists steps :: Run(c, steps).panicked) <==> !Quiet(c)
  {
    if Quiet(c) {
      forall steps
        ensures !Run(c, steps).panicked
      {
        QuietStaysSafe(c, steps);
      }
    } else if c.held.Some? {
      RunOne(c, Put);
    } else if c.writeChan != [] {
      RunTwo(c, Take, Put);
    } else {
      var p :| p in c.senders;
      RunOne(c, Send(p));
    }
  }

  // A connection that has just carried one packet can be closed in the unsafe moment.
  lemma CloseInFlight(p: Packet)
    ensures var c := Run(FRESH, [BeginWrite(p), Send(p), Close]);
      c.closed && !c.panicked && !Quiet(c) && exists steps :: Run(c, steps).panicked
  {
    assert [BeginWrite(p), Send(p), Close][..2] == [BeginWrite(p), Send(p)];
    RunTwo(FRESH, BeginWrite(p), Send(p));
    CloseIsSafeWhenQuiet(Run(FRESH, [BeginWrite(p), Send(p), Close]));
  }

  // Reads that end with nothing and no error happen only on a closed connection, and at
  // most once for each reader that was already waiting.
  lemma {:induction false} EmptyReadsAfterClose(c: Channels, steps: seq<Step>)
    ensures var d := Run(c, steps);
      && d.emptyReads >= c.emptyReads
      && (!d.closed ==> d.emptyReads == c.emptyReads)
      && (c.closed ==> d.closed && d.emptyReads + d.readers <= c.emptyReads + c.readers)
  {
    if steps != [] {
      EmptyReadsAfterClose(c, steps[..|steps| - 1]);
    }
  }

  /** What was written or read stays so, and a connection stays closed. */
  predicate Grown(c: Channels, d: Channels) {
    c.written <= d.written && c.read <= d.read && c.emptyReads <= d.emptyReads && (c.closed ==> d.closed)
  }

  lemma {:induction false} HistoriesGrow(c: Channels, steps: seq<Step>)
    ensures Grown(c, Run(c, steps))
    ensures Run(c, steps).panicked && !c.panicked ==> Run(c, steps).closed
  {
    if steps != [] {
      HistoriesGrow(c, steps[..|steps| - 1]);
    }
  }

  // ------------------------------------------------------------ implementation

  lemma RunAfter(c: Channels, first: Step, d: Channels, rest: seq<Step>) returns (steps: seq<Step>)
    requires d == Next(c, first)
    ensures Run(c, steps) == Run(d, rest) && steps == [first] + rest
  {
    RunOne(c, first);
    RunConcat(c, [first], rest);
    steps := [first] + rest;
  }

  lemma OneOrNone(c: Channels, d: Channels, steps: seq<Step>)
    requires (steps == [] && d == c) || (|steps| == 1 && d == Next(c, steps[0]))
    ensures d == Run(c, steps)
  {
    if steps != [] {
      RunOne(c, steps[0]);
      assert steps == [steps[0]];
    }
  }

  /** Error is an error return; Panic is the end of the process. */
  datatype WriteOutcome = Written | WriteError | WritePanic

  /** Got(n) is n bytes; Empty is zero bytes and no error, from the closed channel. */
  datatype ReadOutcome = Got(n: nat) | Empty | ReadError | ReadPanic

  // What Go's copy does: as much of the packet as fits, the rest of the buffer unchanged.
  method Copy(buf: array<Byte>, packet: Packet) returns (n: nat)
    modifies buf
    ensures n == |Cut(packet, buf.Length)| && buf[..] == Cut(packet, buf.Length) + old(buf[n..])
  {
    n := if |packet| < buf.Length then |packet| else buf.Length;
    forall i | 0 <= i < n {
      buf[i] := packet[i];
    }
  }

  class MASQUEConn {
    var closed: bool
    var writeChan: seq<Packet>
    var readChan: seq<Packet>
    var held: Option<Packet>
    /** The goroutines inside WritePacket, by their packets, and inside ReadPacket. */
    var senders: multiset<Packet>
    var readers: nat
    ghost var panicked: bool
    ghost var written: seq<Packet>
    ghost var read: seq<Packet>
    ghost var emptyReads: nat

    ghost function View(): Channels
      reads this
    {
      Channels(closed, panicked, senders, readers, writeChan, held, readChan, written, read, emptyReads)
    }

    constructor ()
      ensures View() == FRESH
    {
      closed, panicked := false, false;
      senders, readers := multiset{}, 0;
      writeChan, readChan, held := [], [], None;
      written, read, emptyReads := [], [], 0;
    }

    // One step of the forwarder goroutine.
    method ForwarderStep() returns (alive: bool, ghost step: Step)
      requires !panicked
      modifies `writeChan, `readChan, `held, `panicked
      ensures View() == Next(old(View()), step)
      ensures alive <==> !panicked
    {
      alive := true;
      if held.None? {
        step := Take;
        if writeChan != [] {
          held, writeChan := Some(writeChan[0]), writeChan[1..];
        }
      } else {
        step := Put;
        if closed {
          alive, panicked := false, true;
        } else {
          if |readChan| < CAPACITY {
            readChan := readChan + [held.value];
          }
          held := None;
        }
      }
    }

    method Begin(packet: Packet)
      requires !panicked && !closed
      modifies `senders
      ensures View() == Next(old(View()), BeginWrite(packet)) && senders == old(senders) + multiset{packet}
    {
      senders := senders + multiset{packet};
    }

    // The end of a write that has waited: the send, the timeout, or the panic of sending on
    // a closed channel.
    method FinishWrite(packet: Packet) returns (outcome: WriteOutcome, ghost step: Step)
      requires !panicked && packet in senders
      modifies `senders, `writeChan, `written, `panicked
      ensures View() == Next(old(View()), step)
      ensures panicked == (outcome == WritePanic) == closed
      ensures outcome == WriteError ==> step == GiveUp(packet) && |writeChan| >= CAPACITY
      ensures outcome != WritePanic ==> senders == old(senders) - multiset{packet}
      ensures outcome == WritePanic ==> senders == old(senders)
      ensures outcome == Written ==> step == Send(packet) && written == old(written) + [packet]
    {
      step := Send(packet);
      if closed {
        panicked := true;
        return WritePanic, step;
      }
      senders := senders - multiset{packet};
      if |writeChan| >= CAPACITY {
        return WriteError, GiveUp(packet);
      }
      writeChan := writeChan + [packet];
      written := written + [packet];
      outcome := Written;
    }

    // One step of another goroutine inside WritePacket; own are the packets of this one.
    method WriterStep(own: multiset<Packet>) returns (alive: bool, ghost steps: seq<Step>)
      requires !panicked && own <= senders
      modifies `senders, `writeChan, `written, `panicked
      ensures View() == Run(old(View()), steps)
      ensures alive <==> !panicked
      ensures own <= senders
    {
      hide Next, Run;
      alive, steps := true, [];
      var packet: Packet, begin: bool := *, *;
      if begin && !closed {
        Begin(packet);
        steps := [BeginWrite(packet)];
      } else if senders[packet] > own[packet] {
        ghost var step;
        var outcome;
        outcome, step := FinishWrite(packet);
        alive, steps := outcome != WritePanic, [step];
      }
      OneOrNone(old(View()), View(), steps);
    }

    // One step of another goroutine inside ReadPacket; own of the readers are not others.
    method ReaderStep(own: nat) returns (ghost steps: seq<Step>)
      requires !panicked && own <= readers
      modifies `readers, `readChan, `read, `emptyReads
      ensures View() == Run(old(View()), steps)
      ensures own <= readers
    {
      hide Run;
      steps := [];
      var begin: bool, giveUp: bool := *, *;
      if begin {
        if !closed {
          readers := readers + 1;
        }
        steps := [BeginRead];
      } else if readers > own {
        if giveUp {
          readers := readers - 1;
          steps := [GiveUpRead];
        } else {
          if readChan != [] {
            readers := readers - 1;
            read := read + [readChan[0]];
            readChan := readChan[1..];
          } else if closed {
            readers, emptyReads := readers - 1, emptyReads + 1;
          }
          steps := [Receive];
        }
      }
      OneOrNone(old(View()), View(), steps);
    }

    // One step of any other goroutine: the forwarder, a writer, a reader, or a Close.
    method OtherStep(packets: multiset<Packet>, waiting: nat) returns (alive: bool, ghost steps: seq<Step>)
      requires !panicked && packets <= senders && waiting <= readers
      modifies this
      ensures View() == Run(old(View()), steps)
      ensures alive <==> !panicked
      ensures packets <= senders && waiting <= readers
    {
      alive := true;
      var who: nat := *;
      if who == 0 {
        steps := [Step.Close];
        closed := true;
        RunOne(old(View()), Step.Close);
      } else if who == 1 {
        alive, steps := WriterStep(packets);
      } else if who == 2 {
        steps := ReaderStep(waiting);
      } else {
        ghost var step;
        alive, step := ForwarderStep();
        RunOne(old(View()), step);
        steps := [step];
      }
    }

    // Other goroutines run for a while.
    method Wait(packets: multiset<Packet>, waiting: nat) returns (alive: bool, ghost steps: seq<Step>)
      requires !panicked && packets <= senders && waiting <= readers
      modifies this
      ensures View() == Run(old(View()), steps)
      ensures alive <==> !panicked
      ensures packets <= senders && waiting <= readers
    {
      alive, steps := true, [];
      var rounds: nat := *;
      while rounds > 0 && alive
        invariant View() == Run(old(View()), steps)
        invariant alive <==> !panicked
        invariant packets <= senders && waiting <= readers
        decreases rounds
      {
        ghost var more;
        alive, more := OtherStep(packets, waiting);
        RunConcat(old(View()), steps, more);
        steps := steps + more;
        rounds := rounds - 1;
      }
    }

    // Between the closed check and its end, everybody else may do anything. The steps of the
    // call itself are the first one and, unless it panics, the last one.
    method WritePacket(packet: Packet) returns (outcome: WriteOutcome, ghost steps: seq<Step>)
      requires !panicked
      modifies this
      ensures View() == Run(old(View()), steps) && Grown(old(View()), View())
      ensures old(closed) ==> outcome == WriteError && View() == old(View())
      ensures outcome == WriteError ==> old(closed) || (!closed && |writeChan| >= CAPACITY)
      ensures outcome == WritePanic ==> closed
      ensures outcome == WritePanic <==> panicked
      ensures !old(closed) ==> 0 < |steps| && steps[0] == BeginWrite(packet)
      ensures !old(closed) && outcome == WriteError ==> steps[|steps| - 1] == GiveUp(packet)
      ensures outcome == Written ==> steps[|steps| - 1] == Send(packet)
      ensures outcome == Written ==> old(written) < written && written[|written| - 1] == packet
    {
      hide Next, Run, Grown;
      steps := [];
      if closed {
        HistoriesGrow(old(View()), []);
        RunNone(old(View()));
        return WriteError, steps;
      }
      Begin(packet);
      ghost var begun := View();
      var alive;
      alive, steps := Wait(multiset{packet}, 0);
      steps := RunAfter(old(View()), BeginWrite(packet), begun, steps);
      HistoriesGrow(old(View()), steps);
      if !alive {
        return WritePanic, steps;
      }
      ghost var last;
      outcome, last := FinishWrite(packet);
      RunAppend(old(View()), steps, last);
      steps := steps + [last];
      HistoriesGrow(old(View()), steps);
    }

    // The end of a read that has waited: a packet, the closed channel, or the timeout.
    method FinishRead(buf: array<Byte>) returns (outcome: ReadOutcome, ghost step: Step)
      requires !panicked && readers > 0
      modifies `readers, `readChan, `read, `emptyReads, buf
      ensures View() == Next(old(View()), step)
      ensures step == if outcome == ReadError then GiveUpRead else Receive
      ensures outcome == ReadError ==> !closed && readChan == []
      ensures outcome == Empty ==> closed && readChan == [] && emptyReads == old(emptyReads) + 1
      ensures outcome != ReadPanic
      ensures !outcome.Got? ==> read == old(read) && buf[..] == old(buf[..])
      ensures outcome.Got? ==> old(readChan) != [] && read == old(read) + [old(readChan)[0]]
      ensures outcome.Got? ==> outcome.n == |Cut(old(readChan)[0], buf.Length)|
      ensures outcome.Got? ==> buf[..] == Cut(old(readChan)[0], buf.Length) + old(buf[outcome.n..])
    {
      readers := readers - 1;
      step := Receive;
      if readChan != [] {
        var n := Copy(buf, readChan[0]);
        read := read + [readChan[0]];
        readChan := readChan[1..];
        return Got(n), step;
      }
      if !closed {
        return ReadError, GiveUpRead;
      }
      emptyReads := emptyReads + 1;
      outcome := Empty;
    }

    method BeginToRead()
      requires !panicked && !closed
      modifies `readers
      ensures View() == Next(old(View()), BeginRead) && readers > 0
    {
      readers := readers + 1;
    }

    // The same for a read; packet is the one that was read, if any.
    method ReadPacket(buf: array<Byte>)
      returns (outcome: ReadOutcome, ghost packet: Packet, ghost steps: seq<Step>)
      requires !panicked
      modifies this, buf
      ensures View() == Run(old(View()), steps) && Grown(old(View()), View())
      ensures old(closed) ==> outcome == ReadError && View() == old(View())
      ensures outcome == ReadError ==> old(closed) || (!closed && readChan == [])
      ensures outcome == Empty ==> closed && !old(closed) && readChan == [] && old(emptyReads) < emptyReads
      ensures outcome == ReadPanic <==> panicked
      ensures !old(closed) ==> 0 < |steps| && steps[0] == BeginRead
      ensures !old(closed) && outcome != ReadPanic ==>
        steps[|steps| - 1] == if outcome == ReadError then GiveUpRead else Receive
      ensures !outcome.Got? ==> buf[..] == old(buf[..])
      ensures outcome.Got? ==> old(read) < read && read[|read| - 1] == packet
      ensures outcome.Got? ==> outcome.n == |Cut(packet, buf.Length)|
      ensures outcome.Got? ==> buf[..] == Cut(packet, buf.Length) + old(buf[outcome.n..])
    {
      hide Next, Run, Grown, Cut;
      packet, steps := [], [];
      if closed {
        HistoriesGrow(old(View()), []);
        RunNone(old(View()));
        return ReadError, packet, steps;
      }
      BeginToRead();
      ghost var begun := View();
      var alive;
      alive, steps := Wait(multiset{}, 1);
      steps := RunAfter(old(View()), BeginRead, begun, steps);
      HistoriesGrow(old(View()), steps);
      if !alive {
        return ReadPanic, packet, steps;
      }
      ghost var last;
      packet := if readChan != [] then readChan[0] else [];
      outcome, last := FinishRead(buf);
      RunAppend(old(View()), steps, last);
      steps := steps + [last];
      HistoriesGrow(old(View()), steps);
    }

    method Close()
      modifies this
      ensures !old(panicked) ==> View() == Next(old(View()), Step.Close)
    {
      if closed {
        return;
      }
      closed := true;
    }
  }
}
