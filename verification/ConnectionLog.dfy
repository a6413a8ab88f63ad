/** The bounded connection log of the API server (vpn_server/internal/server/api_server.go). */
module ConnectionLog {

  const LIMIT: nat := 1000
  const TRIM: nat := 100
  const PAGE: nat := 100

  datatype Event = Event(clientId: string, eventType: string, timestamp: int, details: string)

  datatype Entry = Entry(id: nat, event: Event)

  /** Appending one entry, numbered by the length of the log, and trimming the oldest. */
  function Added(logs: seq<Entry>, event: Event): seq<Entry> {
    var longer := logs + [Entry(|logs| + 1, event)];
    if |longer| > LIMIT then longer[TRIM..] else longer
  }

  /** The log after these events. */
  function Kept(events: seq<Event>): seq<Entry> {
    if events == [] then [] else Added(Kept(events[..|events| - 1]), events[|events| - 1])
  }

  /** Every entry ever appended, with the number it was given. */
  function History(events: seq<Event>): seq<Entry> {
    if events == [] then []
    else
      var front := events[..|events| - 1];
      History(front) + [Entry(|Kept(front)| + 1, events[|events| - 1])]
  }

  /** The newest PAGE entries, or all if there are fewer. */
  function Newest(entries: seq<Entry>): seq<Entry> {
    if |entries| > PAGE then entries[|entries| - PAGE..] else entries
  }

  lemma SuffixStep(all: seq<Entry>, kept: seq<Entry>, entry: Entry, drop: nat)
    requires |kept| <= |all| && kept == all[|all| - |kept|..] && drop <= |kept| + 1
    ensures (kept + [entry])[drop..] == (all + [entry])[|all| - |kept| + drop..]
  {
    assert kept + [entry] == (all + [entry])[|all| - |kept|..];
  }

  // The log is what is left of the history after dropping its oldest part, has at most
  // LIMIT entries, and its length depends on the number of events only.
  lemma {:induction false} KeptIsSuffix(events: seq<Event>)
    ensures var n, kept, all := |events|, Kept(events), History(events);
      && |all| == n
      && |kept| == (if n <= LIMIT then n else 901 + (n - 1001) % TRIM) <= LIMIT
      && kept == all[n - |kept|..]
  {
    if events != [] {
      var front, last := events[..|events| - 1], events[|events| - 1];
      KeptIsSuffix(front);
      var entry := Entry(|Kept(front)| + 1, last);
      SuffixStep(History(front), Kept(front), entry, 0);
      SuffixStep(History(front), Kept(front), entry, if |Kept(front)| + 1 > LIMIT then TRIM else 0);
    }
  }

  // ------------------------------------------------------------ entry numbers

  predicate DistinctIds(entries: seq<Entry>) {
    forall i, j | 0 <= i < j < |entries| :: entries[i].id != entries[j].id
  }

  /** The number given to the entry after n earlier ones. */
  function IdAfter(n: nat): nat {
    if n <= LIMIT then n + 1 else 902 + (n - 1001) % TRIM
  }

  lemma {:induction false} HistoryIds(events: seq<Event>)
    ensures |History(events)| == |events|
    ensures forall j | 0 <= j < |events| :: History(events)[j].id == IdAfter(j)
  {
    if events != [] {
      HistoryIds(events[..|events| - 1]);
      KeptIsSuffix(events[..|events| - 1]);
    }
  }

  lemma {:induction false} HistoryEvents(events: seq<Event>)
    ensures |History(events)| == |events|
    ensures forall j | 0 <= j < |events| :: History(events)[j].event == events[j]
  {
    if events != [] {
      HistoryEvents(events[..|events| - 1]);
    }
  }

  // What getConnectionLogs returns: the newest hundred events, or all if there are fewer, in
  // order, each with the number it was given; the thousand and first and every hundredth one
  // after it find the log trimmed to 901 entries.
  lemma PageEntries(events: seq<Event>)
    ensures var page, n := Newest(Kept(events)), |events|;
      && |page| == (if n < 100 then n else 100)
      && forall k | 0 <= k < |page| ::
           var j := n - |page| + k;
           && page[k].event == events[j]
           && page[k].id == if j <= 1000 then j + 1 else 902 + (j - 1001) % 100
  {
    KeptIsSuffix(events);
    HistoryEvents(events);
    HistoryIds(events);
  }

  lemma KeptIds(events: seq<Event>, k: nat)
    requires k < |Kept(events)|
    ensures |Kept(events)| <= |events| && Kept(events)[k].id == IdAfter(|events| - |Kept(events)| + k)
  {
    KeptIsSuffix(events);
    HistoryIds(events);
  }

  lemma IdPeriod(j: nat)
    requires j >= 1001
    ensures IdAfter(j) == IdAfter(j - TRIM)
  {
  }

  lemma EarlyKeptIds(events: seq<Event>, k: nat)
    requires |events| <= 1001 && k < |Kept(events)|
    ensures Kept(events)[k].id == |events| - |Kept(events)| + k + 1
  {
    KeptIds(events, k);
  }

  lemma DistinctBeforeTrim(events: seq<Event>)
    requires |events| <= 1001
    ensures DistinctIds(Kept(events))
  {
    forall i: nat, j: nat | i < j < |Kept(events)|
      ensures Kept(events)[i].id != Kept(events)[j].id
    {
      EarlyKeptIds(events, i);
      EarlyKeptIds(events, j);
    }
  }

  lemma SharedAfterTrim(events: seq<Event>)
    requires |events| > 1001
    ensures !DistinctIds(Kept(events))
  {
    KeptIsSuffix(events);
    var last := |Kept(events)| - 1;
    KeptIds(events, last - TRIM);
    KeptIds(events, last);
    IdPeriod(|events| - 1);
    assert Kept(events)[last - TRIM].id == Kept(events)[last].id;
  }

  // The numbers in the log are distinct exactly as long as no more than 1001 events have
  // been logged; from then on two entries of the log always share a number.
  lemma IdsDistinctUntilTrimmed(events: seq<Event>)
    ensures DistinctIds(Kept(events)) <==> |events| <= 1001
  {
    if |events| <= 1001 {
      DistinctBeforeTrim(events);
    } else {
      SharedAfterTrim(events);
    }
  }

  // ------------------------------------------------------------ implementation

  class ConnectionLogs {
    var connectionLogs: seq<Entry>
    /** Everything logged so far. */
    ghost var events: seq<Event>

    ghost predicate Valid()
      reads this
    {
      connectionLogs == Kept(events)
    }

    constructor ()
      ensures Valid() && events == []
    {
      connectionLogs, events := [], [];
    }

    method AddConnectionLog(event: Event)
      requires Valid()
      modifies this
      ensures Valid() && events == old(events) + [event]
    {
      var log := Entry(|connectionLogs| + 1, event);
      connectionLogs := connectionLogs + [log];
      if |connectionLogs| > LIMIT {
        connectionLogs := connectionLogs[TRIM..];
      }
      assert (events + [event])[..|events|] == events;
      events := events + [event];
    }

    method GetConnectionLogs() returns (logs: seq<Entry>, total: nat)
      requires Valid()
      ensures |logs| == total == if |events| < 100 then |events| else 100
      ensures forall k | 0 <= k < |logs| :: logs[k].event == events[|events| - |logs| + k]
      ensures forall k | 0 <= k < |logs| ::
        var j := |events| - |logs| + k; logs[k].id == if j <= 1000 then j + 1 else 902 + (j - 1001) % 100
    {
      PageEntries(events);
      logs := connectionLogs;
      if |logs| > PAGE {
        logs := logs[|logs| - PAGE..];
      }
      total := |logs|;
    }
  }
}
