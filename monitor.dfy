/**
 * The monitoring loop of `main`: each iteration reads the network state and,
 * when the read succeeds, runs the tracker's update with the clock reading
 * taken right after it; a failed read is reported and changes nothing. The
 * clock readings and the outcomes of the reads are inputs, and the loop runs
 * over a finite sequence of polls.
 */
module Monitor {
  import opened Wrappers
  import opened Devices
  import opened Discovery
  import opened Tracker

  /** One iteration's input: what the script gave and the clock reading. */
  datatype Poll = Poll(acq: Acquisition, now: Instant)

  /** The map after one iteration. */
  function AfterPoll(m: TrackedMap, p: Poll, filter: Option<string>, timeout: nat): TrackedMap {
    match NetworkDevices(p.acq, filter)
    case Err(_) => m
    case Ok(ds) => NextMap(m, ds, p.now, timeout)
  }

  /** The events one iteration prints: none after a failed read. */
  predicate ReportsIteration(events: seq<Event>, m: TrackedMap, p: Poll, filter: Option<string>, timeout: nat) {
    match NetworkDevices(p.acq, filter)
    case Err(_) => events == []
    case Ok(ds) => ReportsPoll(events, m, ds, p.now, timeout)
  }

  /** The map after a sequence of iterations. */
  function Replay(m: TrackedMap, polls: seq<Poll>, filter: Option<string>, timeout: nat): TrackedMap {
    if polls == [] then m
    else AfterPoll(Replay(m, polls[..|polls| - 1], filter, timeout), polls[|polls| - 1], filter, timeout)
  }

  /** One iteration of the loop. */
  method Iterate(tracked: TrackedMap, p: Poll, filter: Option<string>, timeout: nat)
    returns (tracked': TrackedMap, events: seq<Event>)
    requires WellKeyed(tracked)
    ensures tracked' == AfterPoll(tracked, p, filter, timeout)
    ensures WellKeyed(tracked')
    ensures ReportsIteration(events, tracked, p, filter, timeout)
  {
    var r := GetNetworkDevices(p.acq, filter);
    match r
    case Err(_) =>
      tracked' := tracked;
      events := [];
    case Ok(currentDevices) =>
      tracked', events := Update(tracked, currentDevices, p.now, timeout);
  }

  /** `log[j]` is what iteration `j` of `polls` prints, for every `j` the
      log covers. */
  predicate Logged(log: seq<seq<Event>>, polls: seq<Poll>, filter: Option<string>, timeout: nat) {
    |log| <= |polls| &&
    forall j :: 0 <= j < |log| ==>
      ReportsIteration(log[j], Replay(map[], polls[..j], filter, timeout), polls[j], filter, timeout)
  }

  lemma ReplayStep(polls: seq<Poll>, filter: Option<string>, timeout: nat, i: nat)
    requires i < |polls|
    ensures Replay(map[], polls[..i + 1], filter, timeout) ==
      AfterPoll(Replay(map[], polls[..i], filter, timeout), polls[i], filter, timeout)
  {
    assert polls[..i + 1][..i] == polls[..i];
  }

  lemma LoggedStep(log: seq<seq<Event>>, polls: seq<Poll>, filter: Option<string>, timeout: nat, events: seq<Event>)
    requires Logged(log, polls, filter, timeout) && |log| < |polls|
    requires ReportsIteration(events, Replay(map[], polls[..|log|], filter, timeout), polls[|log|], filter, timeout)
    ensures Logged(log + [events], polls, filter, timeout)
  {
  }

  /** The loop over `polls`, from the empty map: `log[i]` is what iteration
      `i` prints. */
  method Run(polls: seq<Poll>, filter: Option<string>, timeout: nat)
    returns (tracked: TrackedMap, log: seq<seq<Event>>)
    ensures tracked == Replay(map[], polls, filter, timeout)
    ensures WellKeyed(tracked)
    ensures |log| == |polls|
    ensures forall i :: 0 <= i < |polls| ==>
      ReportsIteration(log[i], Replay(map[], polls[..i], filter, timeout), polls[i], filter, timeout)
  {
    tracked := map[];
    log := [];
    for i := 0 to |polls|
      invariant tracked == Replay(map[], polls[..i], filter, timeout)
      invariant WellKeyed(tracked)
      invariant |log| == i
      invariant Logged(log, polls, filter, timeout)
    {
      var events;
      tracked, events := Iterate(tracked, polls[i], filter, timeout);
      ReplayStep(polls, filter, timeout, i);
      LoggedStep(log, polls, filter, timeout, events);
      log := log + [events];
    }
    assert polls[..|polls|] == polls;
  }

  /** Every tracked entry was last seen at the clock reading of some
      iteration. */
  lemma {:induction false} ReplayLastSeen(polls: seq<Poll>, filter: Option<string>, timeout: nat, k: Key)
    requires k in Replay(map[], polls, filter, timeout)
    ensures exists i :: 0 <= i < |polls| && polls[i].now == Replay(map[], polls, filter, timeout)[k].lastSeen
  {
    var init := polls[..|polls| - 1];
    var p := polls[|polls| - 1];
    var m := Replay(map[], init, filter, timeout);
    var r := NetworkDevices(p.acq, filter);
    if r.Ok? {
      var ds := r.value;
      NextMapSpec(m, ds, p.now, timeout, k);
      if k in Keys(ds) {
        SightedTracked(m, ds, p.now, timeout, k);
        return;
      }
    }
    ReplayLastSeen(init, filter, timeout, k);
    var i :| 0 <= i < |init| && init[i].now == m[k].lastSeen;
    assert polls[i] == init[i];
  }

  /** The last event for key `k` in `evs`, if any. */
  function LastEvent(evs: seq<Event>, k: Key): Option<Event> {
    if evs == [] then None
    else if KeyOf(evs[|evs| - 1].device) == k then Some(evs[|evs| - 1])
    else LastEvent(evs[..|evs| - 1], k)
  }

  /** The last event for key `k` over a log of iterations. */
  function LastLogged(log: seq<seq<Event>>, k: Key): Option<Event> {
    if log == [] then None
    else
      match LastEvent(log[|log| - 1], k)
      case Some(e) => Some(e)
      case None => LastLogged(log[..|log| - 1], k)
  }

  /** There is an event for `k` exactly when `LastEvent` finds one, and what
      it finds is one of them. */
  lemma {:induction false} LastEventSpec(evs: seq<Event>, k: Key)
    ensures LastEvent(evs, k).Some? <==> exists i :: 0 <= i < |evs| && KeyOf(evs[i].device) == k
    ensures LastEvent(evs, k).Some? ==>
      exists i :: 0 <= i < |evs| && evs[i] == LastEvent(evs, k).value && KeyOf(evs[i].device) == k
  {
    if evs != [] {
      var init := evs[..|evs| - 1];
      LastEventSpec(init, k);
      if KeyOf(evs[|evs| - 1].device) != k {
        forall i | 0 <= i < |evs| && KeyOf(evs[i].device) == k ensures exists i' :: 0 <= i' < |init| && KeyOf(init[i'].device) == k {
          assert init[i] == evs[i];
        }
        if LastEvent(init, k).Some? {
          var i :| 0 <= i < |init| && init[i] == LastEvent(init, k).value && KeyOf(init[i].device) == k;
          assert evs[i] == init[i];
        }
      }
    }
  }

  /** One iteration moves a key in or out of the map exactly as its last
      event there says; a key without an event there keeps its state. */
  lemma IterationPresence(evs: seq<Event>, m: TrackedMap, p: Poll, filter: Option<string>, timeout: nat, k: Key)
    requires ReportsIteration(evs, m, p, filter, timeout)
    ensures LastEvent(evs, k).Some? ==>
      (k in AfterPoll(m, p, filter, timeout) <==> LastEvent(evs, k).value.Connected?)
    ensures LastEvent(evs, k).None? ==> (k in AfterPoll(m, p, filter, timeout) <==> k in m)
  {
    var r := NetworkDevices(p.acq, filter);
    if r.Ok? {
      PollEventsPerKey(evs, m, r.value, p.now, timeout);
      PollKeyChange(evs, m, r.value, p.now, timeout, k);
      LastEventSpec(evs, k);
    }
  }

  /** What the log printed agrees with the map, key by key: after the first
      `i` iterations a key is tracked exactly when its last printed event is
      a CONNECTED one. */
  lemma {:induction false} LoggedPresence(log: seq<seq<Event>>, polls: seq<Poll>, filter: Option<string>, timeout: nat, i: nat, k: Key)
    requires Logged(log, polls, filter, timeout) && i <= |log|
    ensures k in Replay(map[], polls[..i], filter, timeout) <==>
      LastLogged(log[..i], k).Some? && LastLogged(log[..i], k).value.Connected?
  {
    if i > 0 {
      LoggedPresence(log, polls, filter, timeout, i - 1, k);
      ReplayStep(polls, filter, timeout, i - 1);
      var prefix := log[..i];
      var evs := log[i - 1];
      var m := Replay(map[], polls[..i - 1], filter, timeout);
      assert prefix[..i - 1] == log[..i - 1];
      assert prefix[i - 1] == evs;
      assert ReportsIteration(evs, m, polls[i - 1], filter, timeout);
      IterationPresence(evs, m, polls[i - 1], filter, timeout, k);
    }
  }

  /** CONNECTED and DISCONNECTED alternate for every key: a key's CONNECTED
      event comes first or after its DISCONNECTED event, and a DISCONNECTED
      event always comes after the key's CONNECTED event, with none between. */
  lemma Alternating(log: seq<seq<Event>>, polls: seq<Poll>, filter: Option<string>, timeout: nat, i: nat, j: nat)
    requires Logged(log, polls, filter, timeout) && i < |log| && j < |log[i]|
    ensures var e := log[i][j];
      var before := LastLogged(log[..i], KeyOf(e.device));
      (e.Connected? ==> before.None? || before.value.Disconnected?) &&
      (e.Disconnected? ==> before.Some? && before.value.Connected?)
  {
    var k := KeyOf(log[i][j].device);
    LoggedPresence(log, polls, filter, timeout, i, k);
    var r := NetworkDevices(polls[i].acq, filter);
    PollEventsPerKey(log[i], Replay(map[], polls[..i], filter, timeout), r.value, polls[i].now, timeout);
  }

  /** Poll `p` reads the network and sights key `k`. */
  predicate SightedIn(p: Poll, filter: Option<string>, k: Key) {
    NetworkDevices(p.acq, filter).Ok? && k in Keys(NetworkDevices(p.acq, filter).value)
  }

  /** An untracked key stays untracked through polls that do not sight it,
      whether they read the network or fail. */
  lemma {:induction false} StaysAbsent(polls: seq<Poll>, filter: Option<string>, timeout: nat, i: nat, n: nat, k: Key)
    requires i <= n <= |polls|
    requires k !in Replay(map[], polls[..i], filter, timeout)
    requires forall j :: i <= j < n ==> !SightedIn(polls[j], filter, k)
    ensures k !in Replay(map[], polls[..n], filter, timeout)
    decreases n
  {
    if n > i {
      StaysAbsent(polls, filter, timeout, i, n - 1, k);
      ReplayStep(polls, filter, timeout, n - 1);
      var r := NetworkDevices(polls[n - 1].acq, filter);
      if r.Ok? {
        NextMapSpec(Replay(map[], polls[..n - 1], filter, timeout), r.value, polls[n - 1].now, timeout, k);
      }
    }
  }

  /** Removed devices come back: a key that is not tracked after iteration
      `i` (in particular one that iteration removed) is reported CONNECTED by
      the first later iteration `n` that sights it, however many iterations
      in between read nothing or failed. */
  lemma Reconnect(polls: seq<Poll>, filter: Option<string>, timeout: nat, i: nat, n: nat, d: Device, events: seq<Event>)
    requires i <= n < |polls|
    requires KeyOf(d) !in Replay(map[], polls[..i], filter, timeout)
    requires forall j :: i <= j < n ==> !SightedIn(polls[j], filter, KeyOf(d))
    requires NetworkDevices(polls[n].acq, filter).Ok? && d in NetworkDevices(polls[n].acq, filter).value
    requires ReportsIteration(events, Replay(map[], polls[..n], filter, timeout), polls[n], filter, timeout)
    ensures exists j ::
      0 <= j < |events| && events[j] == Connected(events[j].device) && KeyOf(events[j].device) == KeyOf(d)
  {
    StaysAbsent(polls, filter, timeout, i, n, KeyOf(d));
    var m := Replay(map[], polls[..n], filter, timeout);
    var ds := NetworkDevices(polls[n].acq, filter).value;
    var now := polls[n].now;
    SightedIff(ds, KeyOf(d));
    ConnectEventsComplete(m, ds, |ds|, now, KeyOf(d));
    ConnectEventsNewKeys(m, ds, |ds|, now);
    var c := ConnectEvents(m, ds, |ds|, now);
    var j :| 0 <= j < |c| && KeyOf(c[j].device) == KeyOf(d);
    assert events[j] == c[j];
  }

  // ---------------------------------------------------------------------------
  // A device that comes and goes, with a timeout of 10 seconds

  /** The first poll that sights `d` from an empty map. */
  lemma FirstSighting(d: Device, now: Instant, timeout: nat)
    ensures ConnectEvents(map[], [d], 1, now) == [Connected(d)]
    ensures Expired(Merged(map[], [d], 1, now), Keys([d]), now, timeout) == {}
    ensures NextMap(map[], [d], now, timeout) == map[KeyOf(d) := TrackedDevice(d, now)]
  {
    assert Merged(map[], [d], 0, now) == map[];
    assert Merged(map[], [d], 1, now) == map[KeyOf(d) := TrackedDevice(d, now)];
  }

  /** A poll that sights nothing. */
  lemma EmptyPoll(d: Device, since: Instant, now: Instant, timeout: nat)
    ensures var m := map[KeyOf(d) := TrackedDevice(d, since)];
      ConnectEvents(m, [], 0, now) == [] &&
      Merged(m, [], 0, now) == m &&
      (ElapsedSecs(now, since) <= timeout ==> Expired(m, Keys([]), now, timeout) == {}) &&
      (ElapsedSecs(now, since) > timeout ==> Expired(m, Keys([]), now, timeout) == {KeyOf(d)})
  {
  }

  /** Seen at 0 s; not past the timeout at 5 s, nor at 10.9 s since the
      elapsed time is truncated to whole seconds; removed at 11 s; seen
      again and reported as new at 12 s. */
  method TimeoutScenario(d: Device) returns (e0: seq<Event>, e1: seq<Event>, e2: seq<Event>, e3: seq<Event>, e4: seq<Event>)
    ensures e0 == [Connected(d)] && e1 == [] && e2 == [] && e3 == [Disconnected(d)] && e4 == [Connected(d)]
  {
    var timeout := 10;
    var m0: TrackedMap := map[];
    var only := map[KeyOf(d) := TrackedDevice(d, 0)];

    var m1;
    m1, e0 := Update(m0, [d], 0, timeout);
    FirstSighting(d, 0, timeout);
    ReportsNone(e0, m0, [d], 0, timeout);
    assert m1 == only;

    var m2;
    m2, e1 := Update(m1, [], 5 * NanosPerSec, timeout);
    EmptyPoll(d, 0, 5 * NanosPerSec, timeout);
    ReportsNone(e1, m1, [], 5 * NanosPerSec, timeout);
    assert m2 == only;

    var m3;
    m3, e2 := Update(m2, [], 10_900_000_000, timeout);
    EmptyPoll(d, 0, 10_900_000_000, timeout);
    ReportsNone(e2, m2, [], 10_900_000_000, timeout);
    assert m3 == only;

    var m4;
    m4, e3 := Update(m3, [], 11 * NanosPerSec, timeout);
    EmptyPoll(d, 0, 11 * NanosPerSec, timeout);
    ReportsOne(e3, m3, [], 11 * NanosPerSec, timeout, KeyOf(d));
    assert m4 == map[];

    var m5;
    m5, e4 := Update(m4, [d], 12 * NanosPerSec, timeout);
    FirstSighting(d, 12 * NanosPerSec, timeout);
    ReportsNone(e4, m4, [d], 12 * NanosPerSec, timeout);
  }
}
