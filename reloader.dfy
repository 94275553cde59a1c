/**
 * The live-reload state of scripts/dev-server.mjs: the set of connected
 * event-stream clients (`sseClients`), the single debounce timer
 * (`reloadTimer`), and the request handler and watcher callback that drive
 * them.
 *
 * Time is an integer clock in milliseconds that only `AdvanceTo` moves; a
 * timer fires when the clock reaches its deadline. What is written to each
 * client is kept as a log of frames.
 */
module Reloader {
  import opened Wrappers
  import opened Watcher
  import opened Routing

  /** A connected response stream. */
  type ClientId = nat

  /** The debounce delay of `queueReload`. */
  const Delay: nat := 75

  /** The frame `sendReload` writes: an event-stream data line and the blank line ending the event. */
  const ReloadFrame: string := "data: reload\n\n"

  class DevServer {
    /** `sseClients`. */
    var clients: set<ClientId>
    /** `reloadTimer`: the deadline of the one pending timer, if any. */
    var pending: Option<int>
    /** The clock. */
    var now: int
    /** The frames written to each client so far. */
    var writes: map<ClientId, seq<string>>
    /** The times at which `sendReload` ran. */
    var sends: seq<int>

    /** The pending timer, if any, is due within one delay of now. */
    predicate Valid()
      reads this
    {
      pending.Some? ==> now < pending.value <= now + Delay
    }

    /** The frames written to `c` so far. */
    function Log(c: ClientId): seq<string>
      reads this
    {
      if c in writes then writes[c] else []
    }

    /** The server at start-up: no clients, no timer. */
    constructor ()
      ensures Valid()
      ensures clients == {} && pending == None && now == 0 && writes == map[] && sends == []
    {
      clients := {};
      pending := None;
      now := 0;
      writes := map[];
      sends := [];
    }

    /** A `/__live_reload` request: the `connected` comment is written, then the client is added. */
    method Connect(c: ClientId)
      requires Valid()
      modifies this
      ensures Valid()
      ensures clients == old(clients) + {c}
      ensures writes == old(writes)[c := old(Log(c)) + [ConnectedFrame]]
      ensures pending == old(pending) && now == old(now) && sends == old(sends)
    {
      writes := writes[c := Log(c) + [ConnectedFrame]];
      clients := clients + {c};
    }

    /** The request's `close` event: the client is removed. */
    method Close(c: ClientId)
      requires Valid()
      modifies this
      ensures Valid()
      ensures clients == old(clients) - {c}
      ensures writes == old(writes) && pending == old(pending) && now == old(now) && sends == old(sends)
    {
      clients := clients - {c};
    }

    /** `sendReload`: one reload frame to every client in the set, and to no one else. */
    method SendReload()
      requires Valid()
      modifies this
      ensures Valid()
      ensures forall c :: Log(c) == if c in clients then old(Log(c)) + [ReloadFrame] else old(Log(c))
      ensures clients == old(clients) && pending == old(pending) && now == old(now) && sends == old(sends)
    {
      var rest := clients;
      while rest != {}
        invariant rest <= clients
        invariant forall c :: Log(c) == if c in clients && c !in rest then old(Log(c)) + [ReloadFrame] else old(Log(c))
        invariant clients == old(clients) && pending == old(pending) && now == old(now) && sends == old(sends)
        decreases rest
      {
        var c :| c in rest;
        writes := writes[c := Log(c) + [ReloadFrame]];
        rest := rest - {c};
      }
    }

    /** `queueReload`: any pending timer is cancelled and a new one is due one delay from now. */
    method QueueReload()
      requires Valid()
      modifies this
      ensures Valid()
      ensures pending == Some(now + Delay)
      ensures clients == old(clients) && writes == old(writes) && now == old(now) && sends == old(sends)
    {
      pending := Some(now + Delay);
    }

    /**
     * The clock moves to `t`. If the timer is due by then it fires at its
     * deadline: `sendReload` runs once and the timer is cleared.
     */
    method AdvanceTo(t: int)
      requires Valid() && t >= now
      modifies this
      ensures Valid() && now == t && clients == old(clients)
      ensures old(pending).Some? && old(pending).value <= t ==>
        pending == None && sends == old(sends) + [old(pending).value]
        && forall c :: Log(c) == if c in clients then old(Log(c)) + [ReloadFrame] else old(Log(c))
      ensures !(old(pending).Some? && old(pending).value <= t) ==>
        pending == old(pending) && sends == old(sends) && writes == old(writes)
    {
      if pending.Some? && pending.value <= t {
        // the timer is taken off before the send; `sendReload` does not look at it
        var deadline := pending.value;
        pending := None;
        now := deadline;
        SendReload();
        sends := sends + [deadline];
      }
      now := t;
    }

    /** The watcher callback: a reload is queued for a change that passes the filter. */
    method OnWatchEvent(eventType: string, filename: Option<string>, sep: char)
      requires Valid()
      modifies this
      ensures Valid()
      ensures QueuesReload(eventType, filename, sep) ==> pending == Some(now + Delay)
      ensures !QueuesReload(eventType, filename, sep) ==> pending == old(pending)
      ensures clients == old(clients) && writes == old(writes) && now == old(now) && sends == old(sends)
    {
      if QueuesReload(eventType, filename, sep) {
        QueueReload();
      }
    }

    /**
     * The request handler for a request on stream `c`: the response it
     * produces, and for the stream path the client joining the set.
     */
    method HandleRequest(c: ClientId, url: Option<string>, root: seq<string>, read: ReadResult) returns (response: Response)
      requires Valid() && Clean(root)
      modifies this
      ensures Valid()
      ensures response == RouteResponse(RouteOf(url, root), read)
      ensures RouteOf(url, root) == EventStream ==>
        clients == old(clients) + {c} && writes == old(writes)[c := old(Log(c)) + [ConnectedFrame]]
      ensures RouteOf(url, root) != EventStream ==> clients == old(clients) && writes == old(writes)
      ensures pending == old(pending) && now == old(now) && sends == old(sends)
    {
      var route := RouteOf(url, root);
      if route == EventStream {
        Connect(c);
      }
      response := RouteResponse(route, read);
    }
  }

  // ---------------------------------------------------------------------
  // The debounce, as a function of the event times
  // ---------------------------------------------------------------------

  predicate Ascending(events: seq<int>) {
    forall i, j :: 0 <= i < j < |events| ==> events[i] <= events[j]
  }

  /**
   * The sends already made once the last of `events` has been queued: an
   * event's timer fires exactly when the next event comes one delay or more
   * after it.
   */
  function Fired(events: seq<int>): seq<int>
  {
    if |events| <= 1 then []
    else
      var prev := events[..|events| - 1];
      var a, b := events[|events| - 2], events[|events| - 1];
      Fired(prev) + (if b >= a + Delay then [a + Delay] else [])
  }

  /** All sends by time `until`: the ones fired, and the last timer if it is due. */
  function Debounced(events: seq<int>, until: int): seq<int>
  {
    var last := if |events| > 0 && events[|events| - 1] + Delay <= until then [events[|events| - 1] + Delay] else [];
    Fired(events) + last
  }

  /**
   * A run of the server: an event at each of the times in `events` (every one
   * passing the watcher filter), then the clock moved on to `until`; the
   * times at which reloads were sent.
   */
  method Replay(events: seq<int>, until: int) returns (sent: seq<int>)
    requires Ascending(events) && (forall i :: 0 <= i < |events| ==> events[i] >= 0)
    requires until >= 0 && forall i :: 0 <= i < |events| ==> events[i] <= until
    ensures sent == Debounced(events, until)
  {
    var server := new DevServer();
    var k := 0;
    while k < |events|
      invariant 0 <= k <= |events| && fresh(server) && server.Valid()
      invariant server.now == (if k == 0 then 0 else events[k - 1])
      invariant server.pending == (if k == 0 then None else Some(events[k - 1] + Delay))
      invariant server.sends == Fired(events[..k])
    {
      server.AdvanceTo(events[k]);
      server.QueueReload();
      assert events[..k + 1][..k] == events[..k];
      k := k + 1;
    }
    assert events[..k] == events;
    if |events| > 0 {
      assert events[|events| - 1] <= until;
    }
    server.AdvanceTo(until);
    sent := server.sends;
  }

  // ---------------------------------------------------------------------
  // Properties of the debounce
  // ---------------------------------------------------------------------

  /** Every send made so far is at or before the last event. */
  lemma {:induction false} FiredBefore(events: seq<int>)
    requires Ascending(events)
    ensures forall i :: 0 <= i < |Fired(events)| ==> Fired(events)[i] <= events[|events| - 1]
    decreases |events|
  {
    if |events| > 1 {
      var prev := events[..|events| - 1];
      FiredBefore(prev);
    }
  }

  /** Sends are never closer together than one delay. */
  lemma {:induction false} FiredSpaced(events: seq<int>)
    requires Ascending(events)
    ensures forall i :: 0 <= i < |Fired(events)| - 1 ==> Fired(events)[i] + Delay <= Fired(events)[i + 1]
    decreases |events|
  {
    if |events| > 1 {
      var prev := events[..|events| - 1];
      FiredSpaced(prev);
      FiredBefore(prev);
    }
  }

  lemma DebouncedSpaced(events: seq<int>, until: int)
    requires Ascending(events)
    ensures forall i :: 0 <= i < |Debounced(events, until)| - 1 ==>
      Debounced(events, until)[i] + Delay <= Debounced(events, until)[i + 1]
  {
    FiredSpaced(events);
    if |events| > 0 {
      FiredBefore(events);
    }
  }

  /** A burst of events less than one delay apart sends nothing until it ends. */
  lemma {:induction false} BurstFiresNothing(events: seq<int>)
    requires forall i :: 0 <= i < |events| - 1 ==> events[i + 1] < events[i] + Delay
    ensures Fired(events) == []
    decreases |events|
  {
    if |events| > 1 {
      BurstFiresNothing(events[..|events| - 1]);
    }
  }

  /** ... and then exactly one reload, one delay after its last event. */
  lemma BurstSendsOnce(events: seq<int>, until: int)
    requires |events| > 0 && events[|events| - 1] + Delay <= until
    requires forall i :: 0 <= i < |events| - 1 ==> events[i + 1] < events[i] + Delay
    ensures Debounced(events, until) == [events[|events| - 1] + Delay]
  {
    BurstFiresNothing(events);
  }

  /** Changes at 0, 10 and 20 ms give a single reload, at 95 ms. */
  method DebounceExample() returns (sent: seq<int>)
    ensures sent == [95]
  {
    sent := Replay([0, 10, 20], 200);
    BurstSendsOnce([0, 10, 20], 200);
  }

  /**
   * Two clients connect, the first one closes, and a reload is queued: only
   * the client still connected gets the reload frame.
   */
  method ClosedClientExample() returns (first: seq<string>, second: seq<string>)
    ensures first == [ConnectedFrame]
    ensures second == [ConnectedFrame, ReloadFrame]
  {
    var server := new DevServer();
    server.Connect(1);
    assert server.Log(1) == [ConnectedFrame];
    server.Connect(2);
    assert server.Log(2) == [ConnectedFrame] && server.Log(1) == [ConnectedFrame];
    server.Close(1);
    assert server.clients == {2};
    server.QueueReload();
    server.AdvanceTo(100);
    first, second := server.Log(1), server.Log(2);
  }
}
