/**
 Which writes of a session can fail on an open connection that it has to itself: the failures
 that FecSession leaves free, matched with the timeouts of MasqueConn.
 */
module WriteTimeouts {

  import opened Bytes
  import opened FecConfig
  import opened Wrappers
  import opened XorEncoder

  import Conn = MasqueConn
  import Session = FecSession

  /** A WritePacket call that has returned. */
  datatype Attempt = Attempt(packet: Packet, ok: bool)

  function Written(attempts: seq<Attempt>): seq<Packet> {
    if attempts == [] then []
    else
      var front, last := attempts[..|attempts| - 1], attempts[|attempts| - 1];
      Written(front) + if last.ok then [last.packet] else []
  }

  /** Every failure comes after as many successes as the queue has places. */
  predicate AfterFullQueue(attempts: seq<Attempt>) {
    if attempts == [] then true
    else
      var front, last := attempts[..|attempts| - 1], attempts[|attempts| - 1];
      AfterFullQueue(front) && (last.ok || Conn.CAPACITY <= |Written(front)|)
  }

  lemma WrittenStep(front: seq<Attempt>, last: Attempt)
    ensures Written(front + [last]) == Written(front) + if last.ok then [last.packet] else []
    ensures AfterFullQueue(front + [last]) <==>
            AfterFullQueue(front) && (last.ok || Conn.CAPACITY <= |Written(front)|)
  {
    assert (front + [last])[..|front|] == front;
  }

  // ------------------------------------------------------------- the connection

  /** The call that a step ends, if any. */
  function Ended(c: Conn.Channels, step: Conn.Step): seq<Attempt> {
    match step
    case Send(p) => if p in c.senders && Conn.Next(c, step).written != c.written then [Attempt(p, true)] else []
    case GiveUp(p) => if p in c.senders then [Attempt(p, false)] else []
    case _ => []
  }

  /** The calls that ended in a run, in order. */
  function Log(steps: seq<Conn.Step>): seq<Attempt> {
    if steps == [] then []
    else
      var front := steps[..|steps| - 1];
      Log(front) + Ended(Conn.Run(Conn.FRESH, front), steps[|steps| - 1])
  }

  /** The connection is not closed, and calls time out only when the queue is full. */
  predicate Fair(c: Conn.Channels, step: Conn.Step) {
    && !step.Close?
    && (step.GiveUp? && step.packet in c.senders ==> Conn.CAPACITY <= |c.writeChan|)
  }

  predicate FairRun(steps: seq<Conn.Step>) {
    if steps == [] then true
    else
      var front := steps[..|steps| - 1];
      FairRun(front) && Fair(Conn.Run(Conn.FRESH, front), steps[|steps| - 1])
  }

  lemma LogStep(front: seq<Conn.Step>, last: Conn.Step, c: Conn.Channels)
    requires c == Conn.Run(Conn.FRESH, front)
    ensures Conn.Run(Conn.FRESH, front + [last]) == Conn.Next(c, last)
    ensures Log(front + [last]) == Log(front) + Ended(c, last)
    ensures FairRun(front + [last]) <==> FairRun(front) && Fair(c, last)
  {
    hide Conn.Next, Ended, Fair;
    assert (front + [last])[..|front|] == front;
  }

  predicate Sound(c: Conn.Channels, log: seq<Attempt>) {
    && !c.closed && !c.panicked && |c.writeChan| <= |c.written|
    && Written(log) == c.written && AfterFullQueue(log)
  }

  lemma SoundStep(c: Conn.Channels, log: seq<Attempt>, step: Conn.Step)
    requires Sound(c, log) && Fair(c, step)
    ensures Sound(Conn.Next(c, step), log + Ended(c, step))
  {
    hide Written, AfterFullQueue;
    if Ended(c, step) == [] {
      assert log + [] == log;
    } else {
      WrittenStep(log, Attempt(step.packet, step.Send?));
    }
  }

  lemma {:induction false} FairRunSound(steps: seq<Conn.Step>)
    requires FairRun(steps)
    ensures Sound(Conn.Run(Conn.FRESH, steps), Log(steps))
  {
    if steps != [] {
      hide Fair, Ended, Conn.Next, Sound;
      var front := steps[..|steps| - 1];
      FairRunSound(front);
      SoundStep(Conn.Run(Conn.FRESH, front), Log(front), steps[|steps| - 1]);
    }
  }

  // ----------------------------------------------------- a run for given outcomes

  /** Nothing is under way, and the queue holds what was written, up to its capacity. */
  predicate Settled(c: Conn.Channels) {
    && !c.closed && !c.panicked && c.senders == multiset{} && c.held.None?
    && |c.writeChan| == if |c.written| < Conn.CAPACITY then |c.written| else Conn.CAPACITY
  }

  /** Nobody reads. */
  predicate WithoutReader(steps: seq<Conn.Step>) {
    forall i | 0 <= i < |steps| :: !steps[i].BeginRead? && !steps[i].Receive? && !steps[i].GiveUpRead?
  }

  /** The steps are a run of an open connection without a reader, and c is where it ends. */
  predicate EndsIn(steps: seq<Conn.Step>, c: Conn.Channels) {
    WithoutReader(steps) && FairRun(steps) && c == Conn.Run(Conn.FRESH, steps)
  }

  lemma Extend(steps: seq<Conn.Step>, c: Conn.Channels, step: Conn.Step, d: Conn.Channels)
    returns (longer: seq<Conn.Step>)
    requires EndsIn(steps, c) && Fair(c, step) && d == Conn.Next(c, step)
    requires !step.BeginRead? && !step.Receive? && !step.GiveUpRead?
    ensures EndsIn(longer, d) && Log(longer) == Log(steps) + Ended(c, step)
  {
    LogStep(steps, step, c);
    longer := steps + [step];
  }

  // The forwarder makes room if there is none.
  lemma MakeRoom(steps: seq<Conn.Step>, c: Conn.Channels) returns (longer: seq<Conn.Step>, d: Conn.Channels)
    requires EndsIn(steps, c) && Settled(c)
    ensures EndsIn(longer, d) && Log(longer) == Log(steps)
    ensures !d.closed && !d.panicked && d.senders == multiset{} && d.held.None? && d.written == c.written
    ensures |d.writeChan| == if |c.written| < Conn.CAPACITY then |c.written| else Conn.CAPACITY - 1
  {
    hide EndsIn, Log;
    longer, d := steps, c;
    if |c.writeChan| == Conn.CAPACITY {
      var taken := Conn.Next(c, Conn.Take);
      longer := Extend(steps, c, Conn.Take, taken);
      d := Conn.Next(taken, Conn.Put);
      longer := Extend(longer, taken, Conn.Put, d);
    }
  }

  lemma Succeed(steps: seq<Conn.Step>, c: Conn.Channels, p: Packet)
    returns (longer: seq<Conn.Step>, d: Conn.Channels)
    requires EndsIn(steps, c) && Settled(c)
    ensures EndsIn(longer, d) && Log(longer) == Log(steps) + [Attempt(p, true)]
    ensures Settled(d) && d.written == c.written + [p]
  {
    hide EndsIn, Log;
    var room;
    longer, room := MakeRoom(steps, c);
    var begun := Conn.Next(room, Conn.BeginWrite(p));
    longer := Extend(longer, room, Conn.BeginWrite(p), begun);
    d := Conn.Next(begun, Conn.Send(p));
    longer := Extend(longer, begun, Conn.Send(p), d);
  }

  lemma TimeOut(steps: seq<Conn.Step>, c: Conn.Channels, p: Packet)
    returns (longer: seq<Conn.Step>, d: Conn.Channels)
    requires EndsIn(steps, c) && Settled(c) && Conn.CAPACITY <= |c.written|
    ensures EndsIn(longer, d) && Log(longer) == Log(steps) + [Attempt(p, false)]
    ensures Settled(d) && d.written == c.written
  {
    hide EndsIn, Log;
    var begun := Conn.Next(c, Conn.BeginWrite(p));
    longer := Extend(steps, c, Conn.BeginWrite(p), begun);
    d := Conn.Next(begun, Conn.GiveUp(p));
    longer := Extend(longer, begun, Conn.GiveUp(p), d);
  }

  lemma {:induction false} SomeRun(attempts: seq<Attempt>) returns (steps: seq<Conn.Step>, c: Conn.Channels)
    requires AfterFullQueue(attempts)
    ensures EndsIn(steps, c) && Log(steps) == attempts
    ensures Settled(c) && c.written == Written(attempts)
  {
    if attempts == [] {
      steps, c := [], Conn.FRESH;
    } else {
      hide EndsIn, Conn.Next, Log, Settled;
      var front, last := attempts[..|attempts| - 1], attempts[|attempts| - 1];
      assert attempts == front + [last];
      steps, c := SomeRun(front);
      if last.ok {
        steps, c := Succeed(steps, c, last.packet);
      } else {
        steps, c := TimeOut(steps, c, last.packet);
      }
    }
  }

  // The outcomes of its writes that a connection can have while it is open, with timeouts
  // only on a full queue: exactly those where every failure comes after a hundred successes,
  // whether anybody reads or not.
  lemma PossibleOutcomes(attempts: seq<Attempt>)
    ensures (exists steps :: FairRun(steps) && Log(steps) == attempts) <==> AfterFullQueue(attempts)
    ensures AfterFullQueue(attempts) ==>
      exists steps :: WithoutReader(steps) && FairRun(steps) && Log(steps) == attempts
  {
    hide Written, AfterFullQueue, FairRun, Log, WithoutReader;
    if AfterFullQueue(attempts) {
      var steps, c := SomeRun(attempts);
    }
    forall steps | FairRun(steps)
      ensures AfterFullQueue(Log(steps))
    {
      FairRunSound(steps);
    }
  }

  // ---------------------------------------------------------------- the session

  function Successes(group: seq<Packet>, n: nat): seq<Attempt>
    requires n <= |group|
  {
    if n == 0 then [] else Successes(group, n - 1) + [Attempt(group[n - 1], true)]
  }

  /** The writes that sending a group makes. */
  function Tried(group: seq<Packet>, sent: nat): seq<Attempt>
    requires sent <= |group|
  {
    Successes(group, sent) + if sent < |group| then [Attempt(group[sent], false)] else []
  }

  function EventAttempts(encoder: XOREncoder, buffer: seq<Packet>, failAt: Option<nat>): seq<Attempt>
    requires encoder.config.Valid()
  {
    if |buffer| < encoder.config.blockSize then []
    else
      var group := Encoded(encoder.config, buffer);
      Tried(group, Session.Sent(group, failAt))
  }

  /** The writes that an event list makes. */
  function Attempts(encoder: XOREncoder, events: seq<Session.Event>): seq<Attempt>
    requires encoder.config.Valid()
  {
    if events == [] then []
    else
      var front, last := events[..|events| - 1], events[|events| - 1];
      Attempts(encoder, front) + EventAttempts(encoder, Session.NextBuffer(encoder, front, last.packet), last.failAt)
  }

  lemma {:induction false} SuccessesAppend(attempts: seq<Attempt>, group: seq<Packet>, n: nat)
    requires n <= |group|
    ensures Written(attempts + Successes(group, n)) == Written(attempts) + group[..n]
    ensures AfterFullQueue(attempts + Successes(group, n)) <==> AfterFullQueue(attempts)
  {
    hide Written, AfterFullQueue;
    if n == 0 {
      assert attempts + [] == attempts;
    } else {
      SuccessesAppend(attempts, group, n - 1);
      var before, last := attempts + Successes(group, n - 1), Attempt(group[n - 1], true);
      WrittenStep(before, last);
      assert before + [last] == attempts + Successes(group, n);
      assert group[..n] == group[..n - 1] + [group[n - 1]];
    }
  }

  lemma TriedAppend(attempts: seq<Attempt>, group: seq<Packet>, sent: nat)
    requires sent <= |group|
    ensures Written(attempts + Tried(group, sent)) == Written(attempts) + group[..sent]
    ensures AfterFullQueue(attempts + Tried(group, sent)) <==>
            && AfterFullQueue(attempts)
            && (sent < |group| ==> Conn.CAPACITY <= |Written(attempts) + group[..sent]|)
  {
    hide Written, AfterFullQueue, Successes;
    SuccessesAppend(attempts, group, sent);
    var good := attempts + Successes(group, sent);
    if sent < |group| {
      WrittenStep(good, Attempt(group[sent], false));
      assert attempts + Tried(group, sent) == good + [Attempt(group[sent], false)];
    } else {
      assert attempts + Tried(group, sent) == good;
    }
  }

  // A session's failures are late exactly when its writes are such outcomes.
  lemma {:induction false} LateAttempts(encoder: XOREncoder, events: seq<Session.Event>)
    requires encoder.config.Valid()
    ensures Written(Attempts(encoder, events)) == Session.Run(Some(encoder), events).wire
    ensures AfterFullQueue(Attempts(encoder, events)) <==> Session.Late(encoder, events)
  {
    if events != [] {
      hide Written, AfterFullQueue, Encoded, Tried;
      var front, last := events[..|events| - 1], events[|events| - 1];
      LateAttempts(encoder, front);
      var buffer := Session.NextBuffer(encoder, front, last.packet);
      if |buffer| >= encoder.config.blockSize {
        var group := Encoded(encoder.config, buffer);
        TriedAppend(Attempts(encoder, front), group, Session.Sent(group, last.failAt));
      } else {
        assert Attempts(encoder, front) + [] == Attempts(encoder, front);
      }
    }
  }

  // For every event list: an open connection that carries this session alone can answer its
  // writes that way if and only if no write fails before a hundred have succeeded.
  lemma PossibleFailures(encoder: XOREncoder, events: seq<Session.Event>)
    requires encoder.config.Valid()
    ensures (exists steps :: FairRun(steps) && Log(steps) == Attempts(encoder, events)) <==>
            Session.Late(encoder, events)
  {
    hide Written, AfterFullQueue, FairRun, Log, Attempts, Session.Late;
    LateAttempts(encoder, events);
    PossibleOutcomes(Attempts(encoder, events));
  }
}
