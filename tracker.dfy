/**
 * The presence tracker: one poll's update of the map from device key to
 * tracked device, as the body of the monitoring loop performs it. Sightings
 * are merged in order (an untracked key is reported as connected), then
 * every tracked key that was not sighted and whose entry is older than the
 * timeout in whole seconds is reported as disconnected and removed.
 */
module Tracker {
  import opened Wrappers
  import opened Devices

  /** A reading of the monotonic clock (`std::time::Instant`), in nanoseconds. */
  type Instant = nat

  const NanosPerSec: nat := 1_000_000_000

  /** `TrackedDevice`: the last sighting of a key and when it was made. */
  datatype TrackedDevice = TrackedDevice(device: Device, lastSeen: Instant)

  /** The CONNECTED and DISCONNECTED lines the loop prints. */
  datatype Event = Connected(device: Device) | Disconnected(device: Device)

  /** `tracked_devices`. */
  type TrackedMap = map<Key, TrackedDevice>

  /** `now.duration_since(since).as_secs()`: the whole seconds elapsed, with
      the fraction truncated; zero when `since` is not earlier than `now`,
      since `duration_since` saturates. */
  function ElapsedSecs(now: Instant, since: Instant): nat {
    if now <= since then 0 else (now - since) / NanosPerSec
  }

  /** The keys of a sequence of sightings: `current_device_keys`. */
  function Keys(ds: seq<Device>): set<Key> {
    set d | d in ds :: KeyOf(d)
  }

  /** Every entry is stored under its own device's key, as `insert(key, ..)`
      with `key = device.key()` leaves it. */
  predicate WellKeyed(m: TrackedMap) {
    forall k :: k in m ==> KeyOf(m[k].device) == k
  }

  /** The map after the first `n` sightings have been inserted at `now`. */
  function Merged(m: TrackedMap, ds: seq<Device>, n: nat, now: Instant): TrackedMap
    requires n <= |ds|
  {
    if n == 0 then m
    else Merged(m, ds, n - 1, now)[KeyOf(ds[n - 1]) := TrackedDevice(ds[n - 1], now)]
  }

  /** The CONNECTED events of the first `n` sightings: one for each sighting
      whose key is not in the map at the moment it is inserted. */
  function ConnectEvents(m: TrackedMap, ds: seq<Device>, n: nat, now: Instant): seq<Event>
    requires n <= |ds|
  {
    if n == 0 then []
    else
      ConnectEvents(m, ds, n - 1, now) +
      (if KeyOf(ds[n - 1]) in Merged(m, ds, n - 1, now) then [] else [Connected(ds[n - 1])])
  }

  /** The keys the disconnect pass removes from the merged map `merged`:
      tracked, not sighted, and idle for more whole seconds than `timeout`. */
  function Expired(merged: TrackedMap, sighted: set<Key>, now: Instant, timeout: nat): set<Key> {
    set k | k in merged && ElapsedSecs(now, merged[k].lastSeen) > timeout && k !in sighted
  }

  /** The map after a whole poll. */
  function NextMap(m: TrackedMap, ds: seq<Device>, now: Instant, timeout: nat): TrackedMap {
    var merged := Merged(m, ds, |ds|, now);
    merged - Expired(merged, Keys(ds), now, timeout)
  }

  /** `evs` reports the removal of exactly the keys in `gone`, once each and
      in some order, each with the device `m` stores under it. */
  predicate ReportsRemoval(evs: seq<Event>, m: TrackedMap, gone: set<Key>) {
    (forall i :: 0 <= i < |evs| ==>
      evs[i].Disconnected? && KeyOf(evs[i].device) in gone &&
      KeyOf(evs[i].device) in m && m[KeyOf(evs[i].device)].device == evs[i].device) &&
    (forall i, j :: 0 <= i < j < |evs| ==> KeyOf(evs[i].device) != KeyOf(evs[j].device)) &&
    (forall k :: k in gone ==> exists i :: 0 <= i < |evs| && KeyOf(evs[i].device) == k)
  }

  /** The events of one poll: first the CONNECTED events of the merge pass,
      then one DISCONNECTED event per expired key. */
  predicate ReportsPoll(events: seq<Event>, m: TrackedMap, ds: seq<Device>, now: Instant, timeout: nat) {
    var connects := ConnectEvents(m, ds, |ds|, now);
    var merged := Merged(m, ds, |ds|, now);
    |connects| <= |events| && events[..|connects|] == connects &&
    ReportsRemoval(events[|connects|..], merged, Expired(merged, Keys(ds), now, timeout))
  }

  // ---------------------------------------------------------------------------
  // The update, as the loop body performs it

  /** The merge pass: insert every sighting at `now`, reporting those whose
      key is not yet tracked. */
  method MergeSightings(tracked: TrackedMap, sightings: seq<Device>, now: Instant)
    returns (tracked': TrackedMap, events: seq<Event>)
    ensures tracked' == Merged(tracked, sightings, |sightings|, now)
    ensures events == ConnectEvents(tracked, sightings, |sightings|, now)
  {
    tracked' := tracked;
    events := [];
    for i := 0 to |sightings|
      invariant tracked' == Merged(tracked, sightings, i, now)
      invariant events == ConnectEvents(tracked, sightings, i, now)
    {
      var device := sightings[i];
      var key := KeyOf(device);
      if key !in tracked' {
        events := events + [Connected(device)];
      }
      tracked' := tracked'[key := TrackedDevice(device, now)];
    }
  }

  /** The collection pass: visit the tracked keys in an unspecified order
      (a `HashMap`'s) and list each expired one once, with its device. */
  method CollectExpired(tracked: TrackedMap, current: set<Key>, now: Instant, timeout: nat)
    returns (keysToRemove: seq<(Key, Device)>)
    ensures forall i :: 0 <= i < |keysToRemove| ==>
      keysToRemove[i].0 in Expired(tracked, current, now, timeout) &&
      keysToRemove[i].1 == tracked[keysToRemove[i].0].device
    ensures forall i, j :: 0 <= i < j < |keysToRemove| ==> keysToRemove[i].0 != keysToRemove[j].0
    ensures forall k :: k in Expired(tracked, current, now, timeout) ==>
      exists i :: 0 <= i < |keysToRemove| && keysToRemove[i].0 == k
  {
    ghost var gone := Expired(tracked, current, now, timeout);
    keysToRemove := [];
    var pending := tracked.Keys;
    while pending != {}
      invariant pending <= tracked.Keys
      invariant forall i :: 0 <= i < |keysToRemove| ==>
        keysToRemove[i].0 in gone && keysToRemove[i].0 !in pending &&
        keysToRemove[i].1 == tracked[keysToRemove[i].0].device
      invariant forall i, j :: 0 <= i < j < |keysToRemove| ==> keysToRemove[i].0 != keysToRemove[j].0
      invariant forall k :: k in gone && k !in pending ==>
        exists i :: 0 <= i < |keysToRemove| && keysToRemove[i].0 == k
      decreases |pending|
    {
      var key :| key in pending;
      var entry := tracked[key];
      ghost var before := keysToRemove;
      if ElapsedSecs(now, entry.lastSeen) > timeout && key !in current {
        keysToRemove := keysToRemove + [(key, entry.device)];
      }
      pending := pending - {key};
      forall k | k in gone && k !in pending
        ensures exists i :: 0 <= i < |keysToRemove| && keysToRemove[i].0 == k
      {
        if k == key {
          assert keysToRemove[|before|].0 == k;
        } else {
          var i :| 0 <= i < |before| && before[i].0 == k;
          assert keysToRemove[i] == before[i];
        }
      }
    }
  }

  /** The removal pass: report and remove the listed keys in list order. */
  method RemoveListed(tracked: TrackedMap, keysToRemove: seq<(Key, Device)>)
    returns (tracked': TrackedMap, events: seq<Event>)
    ensures tracked' == tracked - (set i | 0 <= i < |keysToRemove| :: keysToRemove[i].0)
    ensures |events| == |keysToRemove|
    ensures forall i :: 0 <= i < |events| ==> events[i] == Disconnected(keysToRemove[i].1)
  {
    tracked' := tracked;
    events := [];
    for i := 0 to |keysToRemove|
      invariant tracked' == tracked - (set j | 0 <= j < i :: keysToRemove[j].0)
      invariant |events| == i
      invariant forall j :: 0 <= j < i ==> events[j] == Disconnected(keysToRemove[j].1)
    {
      var (key, device) := keysToRemove[i];
      events := events + [Disconnected(device)];
      tracked' := tracked' - {key};
      assert (set j | 0 <= j < i + 1 :: keysToRemove[j].0) ==
        (set j | 0 <= j < i :: keysToRemove[j].0) + {key};
    }
  }

  /** One poll's update (the body of the monitoring loop after a successful
      read): the new map is `NextMap`, the CONNECTED events come first, in
      sighting order, and the DISCONNECTED events that follow report each
      expired key once, in an unspecified order. */
  method Update(tracked: TrackedMap, sightings: seq<Device>, now: Instant, timeout: nat)
    returns (tracked': TrackedMap, events: seq<Event>)
    requires WellKeyed(tracked)
    ensures tracked' == NextMap(tracked, sightings, now, timeout)
    ensures WellKeyed(tracked')
    ensures ReportsPoll(events, tracked, sightings, now, timeout)
  {
    var currentKeys := set d | d in sightings :: KeyOf(d);
    var merged, connects := MergeSightings(tracked, sightings, now);
    MergedWellKeyed(tracked, sightings, |sightings|, now);
    var keysToRemove := CollectExpired(merged, currentKeys, now, timeout);
    var disconnects;
    tracked', disconnects := RemoveListed(merged, keysToRemove);
    events := connects + disconnects;
    ghost var gone := Expired(merged, currentKeys, now, timeout);
    assert (set i | 0 <= i < |keysToRemove| :: keysToRemove[i].0) == gone;
    assert events[|connects|..] == disconnects;
    RemovalReported(merged, keysToRemove, disconnects, gone);
    RemoveWellKeyed(merged, gone);
  }

  lemma RemovalReported(merged: TrackedMap, keysToRemove: seq<(Key, Device)>, evs: seq<Event>, gone: set<Key>)
    requires WellKeyed(merged) && gone <= merged.Keys
    requires forall i :: 0 <= i < |keysToRemove| ==>
      keysToRemove[i].0 in gone && keysToRemove[i].1 == merged[keysToRemove[i].0].device
    requires forall i, j :: 0 <= i < j < |keysToRemove| ==> keysToRemove[i].0 != keysToRemove[j].0
    requires forall k :: k in gone ==> exists i :: 0 <= i < |keysToRemove| && keysToRemove[i].0 == k
    requires |evs| == |keysToRemove|
    requires forall i :: 0 <= i < |evs| ==> evs[i] == Disconnected(keysToRemove[i].1)
    ensures ReportsRemoval(evs, merged, gone)
  {
    forall i | 0 <= i < |evs| ensures KeyOf(evs[i].device) == keysToRemove[i].0 {
      assert KeyOf(merged[keysToRemove[i].0].device) == keysToRemove[i].0;
    }
  }

  lemma RemoveWellKeyed(m: TrackedMap, gone: set<Key>)
    requires WellKeyed(m)
    ensures WellKeyed(m - gone)
  {
  }

  // ---------------------------------------------------------------------------
  // The merge pass

  /** Sighting `j` is the last of the first `n` with key `k`. */
  predicate LastWith(ds: seq<Device>, n: nat, k: Key, j: nat) {
    j < n <= |ds| && KeyOf(ds[j]) == k && forall i :: j < i < n ==> KeyOf(ds[i]) != k
  }

  /** None of the first `n` sightings has key `k`. */
  predicate Unsighted(ds: seq<Device>, n: nat, k: Key) {
    forall j :: 0 <= j < n <= |ds| ==> KeyOf(ds[j]) != k
  }

  /** Merging tracks exactly the old keys and the sighted ones. */
  lemma {:induction false} MergedKeys(m: TrackedMap, ds: seq<Device>, n: nat, now: Instant, k: Key)
    requires n <= |ds|
    ensures k in Merged(m, ds, n, now) <==> k in m || !Unsighted(ds, n, k)
  {
    if n > 0 {
      MergedKeys(m, ds, n - 1, now, k);
    }
  }

  /** A sighted key maps to its last sighting, seen `now`. */
  lemma {:induction false} MergedLast(m: TrackedMap, ds: seq<Device>, n: nat, now: Instant, k: Key, j: nat)
    requires LastWith(ds, n, k, j)
    ensures k in Merged(m, ds, n, now) && Merged(m, ds, n, now)[k] == TrackedDevice(ds[j], now)
  {
    if j < n - 1 {
      MergedLast(m, ds, n - 1, now, k, j);
    }
  }

  /** Every sighted key has a last sighting. */
  lemma {:induction false} HasLast(ds: seq<Device>, n: nat, k: Key)
    requires n <= |ds| && !Unsighted(ds, n, k)
    ensures exists j :: LastWith(ds, n, k, j)
  {
    if KeyOf(ds[n - 1]) == k {
      assert LastWith(ds, n, k, n - 1);
    } else {
      HasLast(ds, n - 1, k);
      var j :| LastWith(ds, n - 1, k, j);
      assert LastWith(ds, n, k, j);
    }
  }

  /** An unsighted key keeps its old entry. */
  lemma {:induction false} MergedUnsighted(m: TrackedMap, ds: seq<Device>, n: nat, now: Instant, k: Key)
    requires n <= |ds| && Unsighted(ds, n, k) && k in m
    ensures k in Merged(m, ds, n, now) && Merged(m, ds, n, now)[k] == m[k]
  {
    if n > 0 {
      MergedUnsighted(m, ds, n - 1, now, k);
    }
  }

  lemma {:induction false} MergedWellKeyed(m: TrackedMap, ds: seq<Device>, n: nat, now: Instant)
    requires n <= |ds| && WellKeyed(m)
    ensures WellKeyed(Merged(m, ds, n, now))
  {
    if n > 0 {
      MergedWellKeyed(m, ds, n - 1, now);
    }
  }

  /** Sighting `j` is the first with its key and the key was not tracked. */
  predicate IsNew(m: TrackedMap, ds: seq<Device>, j: nat)
    requires j < |ds|
  {
    KeyOf(ds[j]) !in m && Unsighted(ds, j, KeyOf(ds[j]))
  }

  /** The CONNECTED event of each sighting, if it gets one. */
  function NewSightings(m: TrackedMap, ds: seq<Device>, n: nat): (os: seq<Option<Event>>)
    requires n <= |ds|
    ensures |os| == n
  {
    seq(n, j requires 0 <= j < n => if IsNew(m, ds, j) then Some(Connected(ds[j])) else None)
  }

  /** A sighting is reported as connected exactly when its key was not
      tracked before the poll and no earlier sighting of the poll had it. */
  lemma {:induction false} ConnectEventsNew(m: TrackedMap, ds: seq<Device>, n: nat, now: Instant)
    requires n <= |ds|
    ensures ConnectEvents(m, ds, n, now) == Somes(NewSightings(m, ds, n))
  {
    if n > 0 {
      ConnectEventsNew(m, ds, n - 1, now);
      var os := NewSightings(m, ds, n);
      assert os[..n - 1] == NewSightings(m, ds, n - 1);
      MergedKeys(m, ds, n - 1, now, KeyOf(ds[n - 1]));
      assert os[n - 1].ToSeq() ==
        (if KeyOf(ds[n - 1]) in Merged(m, ds, n - 1, now) then [] else [Connected(ds[n - 1])]);
    }
  }

  /** What one more sighting adds to the CONNECTED events. */
  lemma ConnectEventsStep(m: TrackedMap, ds: seq<Device>, n: nat, now: Instant)
    requires 0 < n <= |ds|
    ensures var c0 := ConnectEvents(m, ds, n - 1, now);
      var c := ConnectEvents(m, ds, n, now);
      var key := KeyOf(ds[n - 1]);
      c[..|c0|] == c0 &&
      (key !in m && Unsighted(ds, n - 1, key) ==> c == c0 + [Connected(ds[n - 1])]) &&
      (key in m || !Unsighted(ds, n - 1, key) ==> c == c0)
  {
    MergedKeys(m, ds, n - 1, now, KeyOf(ds[n - 1]));
  }

  /** Every CONNECTED event is for a sighted key that was not tracked. */
  lemma {:induction false} ConnectEventsNewKeys(m: TrackedMap, ds: seq<Device>, n: nat, now: Instant)
    requires n <= |ds|
    ensures var c := ConnectEvents(m, ds, n, now);
      forall i :: 0 <= i < |c| ==>
        c[i].Connected? && KeyOf(c[i].device) !in m && !Unsighted(ds, n, KeyOf(c[i].device))
  {
    if n > 0 {
      ConnectEventsNewKeys(m, ds, n - 1, now);
      ConnectEventsStep(m, ds, n, now);
      var c0 := ConnectEvents(m, ds, n - 1, now);
      var c := ConnectEvents(m, ds, n, now);
      forall i | 0 <= i < |c|
        ensures c[i].Connected? && KeyOf(c[i].device) !in m && !Unsighted(ds, n, KeyOf(c[i].device))
      {
        if i < |c0| {
          assert c[i] == c0[i];
          assert !Unsighted(ds, n - 1, KeyOf(c[i].device));
        } else {
          assert c[i] == Connected(ds[n - 1]);
        }
      }
    }
  }

  /** The CONNECTED events carry distinct keys: at most one per key, even
      when both tables report the same device. */
  lemma {:induction false} ConnectEventsDistinct(m: TrackedMap, ds: seq<Device>, n: nat, now: Instant)
    requires n <= |ds|
    ensures var c := ConnectEvents(m, ds, n, now);
      forall i, j :: 0 <= i < j < |c| ==> KeyOf(c[i].device) != KeyOf(c[j].device)
  {
    if n > 0 {
      ConnectEventsDistinct(m, ds, n - 1, now);
      ConnectEventsNewKeys(m, ds, n - 1, now);
      ConnectEventsStep(m, ds, n, now);
      var c0 := ConnectEvents(m, ds, n - 1, now);
      var c := ConnectEvents(m, ds, n, now);
      forall i, j | 0 <= i < j < |c| ensures KeyOf(c[i].device) != KeyOf(c[j].device) {
        assert c[i] == c0[i];
        if j < |c0| {
          assert c[j] == c0[j];
        }
      }
    }
  }

  /** Every key first seen in this poll gets a CONNECTED event. */
  lemma {:induction false} ConnectEventsComplete(m: TrackedMap, ds: seq<Device>, n: nat, now: Instant, k: Key)
    requires n <= |ds| && k !in m && !Unsighted(ds, n, k)
    ensures var c := ConnectEvents(m, ds, n, now);
      exists i :: 0 <= i < |c| && KeyOf(c[i].device) == k
  {
    ConnectEventsStep(m, ds, n, now);
    var c0 := ConnectEvents(m, ds, n - 1, now);
    var c := ConnectEvents(m, ds, n, now);
    if !Unsighted(ds, n - 1, k) {
      ConnectEventsComplete(m, ds, n - 1, now, k);
      var i :| 0 <= i < |c0| && KeyOf(c0[i].device) == k;
      assert c[i] == c0[i];
    } else {
      assert c[|c0|] == Connected(ds[n - 1]);
    }
  }

  // ---------------------------------------------------------------------------
  // The disconnect pass and the whole poll

  /** A sighted key is never removed: its entry was refreshed `now`, so no
      whole second has passed. The `current_device_keys` check is therefore
      implied by the timeout check. */
  lemma SightedNotExpired(m: TrackedMap, ds: seq<Device>, now: Instant, timeout: nat)
    ensures var merged := Merged(m, ds, |ds|, now);
      Expired(merged, Keys(ds), now, timeout) ==
        set k | k in merged && ElapsedSecs(now, merged[k].lastSeen) > timeout
  {
    var merged := Merged(m, ds, |ds|, now);
    forall k | k in merged && k in Keys(ds) ensures ElapsedSecs(now, merged[k].lastSeen) == 0 {
      var d :| d in ds && KeyOf(d) == k;
      var j :| 0 <= j < |ds| && ds[j] == d;
      HasLast(ds, |ds|, k);
      var l :| LastWith(ds, |ds|, k, l);
      MergedLast(m, ds, |ds|, now, k, l);
    }
  }

  lemma SightedIff(ds: seq<Device>, k: Key)
    ensures k in Keys(ds) <==> !Unsighted(ds, |ds|, k)
  {
    if k in Keys(ds) {
      var d :| d in ds && KeyOf(d) == k;
      var j :| 0 <= j < |ds| && ds[j] == d;
    }
  }

  /** A key is removed exactly when it was tracked, not sighted, and idle for
      more whole seconds than the timeout. */
  lemma ExpiredIff(m: TrackedMap, ds: seq<Device>, now: Instant, timeout: nat, k: Key)
    ensures var merged := Merged(m, ds, |ds|, now);
      k in Expired(merged, Keys(ds), now, timeout) <==>
        k in m && k !in Keys(ds) && ElapsedSecs(now, m[k].lastSeen) > timeout
  {
    SightedIff(ds, k);
    MergedKeys(m, ds, |ds|, now, k);
    if k in m && k !in Keys(ds) {
      MergedUnsighted(m, ds, |ds|, now, k);
    }
  }

  /** The map after a poll: every sighted key holds its last sighting, seen
      `now`; an unsighted tracked key is kept, unchanged, exactly when it has
      not timed out; nothing else is tracked. */
  lemma NextMapSpec(m: TrackedMap, ds: seq<Device>, now: Instant, timeout: nat, k: Key)
    ensures var next := NextMap(m, ds, now, timeout);
      (k in next ==> k in m || k in Keys(ds)) &&
      (forall j: nat :: LastWith(ds, |ds|, k, j) ==> k in next && next[k] == TrackedDevice(ds[j], now)) &&
      (k in m && k !in Keys(ds) ==>
        (k in next <==> ElapsedSecs(now, m[k].lastSeen) <= timeout) &&
        (k in next ==> next[k] == m[k]))
  {
    var merged := Merged(m, ds, |ds|, now);
    SightedIff(ds, k);
    MergedKeys(m, ds, |ds|, now, k);
    ExpiredIff(m, ds, now, timeout, k);
    forall j: nat | LastWith(ds, |ds|, k, j) ensures k in merged && merged[k] == TrackedDevice(ds[j], now) {
      MergedLast(m, ds, |ds|, now, k, j);
    }
    if k in m && k !in Keys(ds) {
      MergedUnsighted(m, ds, |ds|, now, k);
    }
  }

  /** Every sighted key is tracked after the poll, refreshed `now`. */
  lemma SightedTracked(m: TrackedMap, ds: seq<Device>, now: Instant, timeout: nat, k: Key)
    requires k in Keys(ds)
    ensures k in NextMap(m, ds, now, timeout) && NextMap(m, ds, now, timeout)[k].lastSeen == now
  {
    SightedIff(ds, k);
    HasLast(ds, |ds|, k);
    var j :| LastWith(ds, |ds|, k, j);
    NextMapSpec(m, ds, now, timeout, k);
  }

  lemma NextMapWellKeyed(m: TrackedMap, ds: seq<Device>, now: Instant, timeout: nat)
    requires WellKeyed(m)
    ensures WellKeyed(NextMap(m, ds, now, timeout))
  {
    MergedWellKeyed(m, ds, |ds|, now);
  }

  /** The timeout test in whole seconds: the entry expires only once
      `timeout + 1` full seconds have passed. */
  lemma TimedOutIff(now: Instant, since: Instant, timeout: nat)
    ensures ElapsedSecs(now, since) > timeout <==> since + (timeout + 1) * NanosPerSec <= now
  {
    if since < now {
      var q := (now - since) / NanosPerSec;
      assert now - since == q * NanosPerSec + (now - since) % NanosPerSec;
      if q > timeout {
        assert (timeout + 1) * NanosPerSec <= q * NanosPerSec;
      } else {
        assert q * NanosPerSec <= timeout * NanosPerSec;
      }
    }
  }

  /** The keys reported as connected are exactly the sighted keys that were
      not tracked. */
  lemma ConnectedKeys(m: TrackedMap, ds: seq<Device>, now: Instant)
    ensures var c := ConnectEvents(m, ds, |ds|, now);
      (set i | 0 <= i < |c| :: KeyOf(c[i].device)) == Keys(ds) - m.Keys
  {
    ConnectEventsNewKeys(m, ds, |ds|, now);
    forall i | 0 <= i < |ConnectEvents(m, ds, |ds|, now)|
      ensures KeyOf(ConnectEvents(m, ds, |ds|, now)[i].device) in Keys(ds)
    {
      SightedIff(ds, KeyOf(ConnectEvents(m, ds, |ds|, now)[i].device));
    }
    forall k | k in Keys(ds) - m.Keys
      ensures exists i :: 0 <= i < |ConnectEvents(m, ds, |ds|, now)| && KeyOf(ConnectEvents(m, ds, |ds|, now)[i].device) == k
    {
      SightedIff(ds, k);
      ConnectEventsComplete(m, ds, |ds|, now, k);
    }
  }

  /** A tracked device seen again, perhaps on another interface since the
      key ignores it, is not reported, and its entry is replaced by the new
      sighting. */
  lemma InterfaceMigration(m: TrackedMap, d: Device, now: Instant, timeout: nat)
    requires KeyOf(d) in m
    ensures ConnectEvents(m, [d], 1, now) == []
    ensures var next := NextMap(m, [d], now, timeout);
      KeyOf(d) in next && next[KeyOf(d)] == TrackedDevice(d, now)
  {
    assert LastWith([d], 1, KeyOf(d), 0);
    NextMapSpec(m, [d], now, timeout, KeyOf(d));
  }

  /** Polling twice at the same instant with the same sightings: the second
      poll reports nothing and leaves the map as the first left it. */
  lemma RepeatPoll(m: TrackedMap, ds: seq<Device>, now: Instant, timeout: nat)
    ensures var next := NextMap(m, ds, now, timeout);
      ConnectEvents(next, ds, |ds|, now) == [] &&
      Expired(Merged(next, ds, |ds|, now), Keys(ds), now, timeout) == {} &&
      NextMap(next, ds, now, timeout) == next
  {
    var next := NextMap(m, ds, now, timeout);
    forall j | 0 <= j < |ds| ensures KeyOf(ds[j]) in next {
      SightedTracked(m, ds, now, timeout, KeyOf(ds[j]));
    }
    NoConnects(next, ds, |ds|, now);
    forall k ensures k !in Expired(Merged(next, ds, |ds|, now), Keys(ds), now, timeout) {
      ExpiredIff(next, ds, now, timeout, k);
      NextMapSpec(m, ds, now, timeout, k);
    }
    var next2 := NextMap(next, ds, now, timeout);
    forall k ensures (k in next2 <==> k in next) && (k in next ==> next2[k] == next[k]) {
      NextMapSpec(m, ds, now, timeout, k);
      NextMapSpec(next, ds, now, timeout, k);
      SightedIff(ds, k);
      if k in Keys(ds) {
        HasLast(ds, |ds|, k);
      }
    }
    assert next2 == next;
  }

  /** Sightings of tracked keys only are not reported. */
  lemma {:induction false} NoConnects(m: TrackedMap, ds: seq<Device>, n: nat, now: Instant)
    requires n <= |ds|
    requires forall j :: 0 <= j < n ==> KeyOf(ds[j]) in m
    ensures ConnectEvents(m, ds, n, now) == []
  {
    if n > 0 {
      NoConnects(m, ds, n - 1, now);
      MergedKeys(m, ds, n - 1, now, KeyOf(ds[n - 1]));
    }
  }

  /** Distinct keys: as many keys as events. */
  lemma {:induction false} DistinctKeysCard(evs: seq<Event>)
    requires forall i, j :: 0 <= i < j < |evs| ==> KeyOf(evs[i].device) != KeyOf(evs[j].device)
    ensures |set i | 0 <= i < |evs| :: KeyOf(evs[i].device)| == |evs|
  {
    if |evs| > 0 {
      var init := evs[..|evs| - 1];
      var last := KeyOf(evs[|evs| - 1].device);
      DistinctKeysCard(init);
      var s0 := set i | 0 <= i < |init| :: KeyOf(init[i].device);
      assert (set i | 0 <= i < |evs| :: KeyOf(evs[i].device)) == s0 + {last} by {
        forall i | 0 <= i < |init| ensures init[i] == evs[i] {}
      }
      assert last !in s0 by {
        forall i | 0 <= i < |init| ensures KeyOf(init[i].device) != last {
          assert init[i] == evs[i];
        }
      }
    }
  }

  /** A poll reports as many removals as keys expire. */
  lemma RemovalCount(evs: seq<Event>, m: TrackedMap, gone: set<Key>)
    requires ReportsRemoval(evs, m, gone)
    ensures |evs| == |gone|
  {
    DistinctKeysCard(evs);
    assert (set i | 0 <= i < |evs| :: KeyOf(evs[i].device)) == gone;
  }

  /** The events a poll reports when no key expires: only the CONNECTED
      events. */
  lemma ReportsNone(events: seq<Event>, m: TrackedMap, ds: seq<Device>, now: Instant, timeout: nat)
    requires ReportsPoll(events, m, ds, now, timeout)
    requires Expired(Merged(m, ds, |ds|, now), Keys(ds), now, timeout) == {}
    ensures events == ConnectEvents(m, ds, |ds|, now)
  {
    var connects := ConnectEvents(m, ds, |ds|, now);
    var merged := Merged(m, ds, |ds|, now);
    RemovalCount(events[|connects|..], merged, Expired(merged, Keys(ds), now, timeout));
    assert events == events[..|connects|] + events[|connects|..];
  }

  /** The events a poll reports when exactly one key expires and nothing
      connects: the DISCONNECTED event of that key's device. */
  lemma ReportsOne(events: seq<Event>, m: TrackedMap, ds: seq<Device>, now: Instant, timeout: nat, k: Key)
    requires ReportsPoll(events, m, ds, now, timeout)
    requires ConnectEvents(m, ds, |ds|, now) == []
    requires Expired(Merged(m, ds, |ds|, now), Keys(ds), now, timeout) == {k}
    ensures events == [Disconnected(Merged(m, ds, |ds|, now)[k].device)]
  {
    var merged := Merged(m, ds, |ds|, now);
    assert events[0..] == events;
    RemovalCount(events, merged, {k});
    assert KeyOf(events[0].device) in {k};
  }

  // ---------------------------------------------------------------------------
  // Events and the map, key by key

  /** A CONNECTED event of the merge pass is for a key that was not tracked
      and is tracked after the poll. */
  lemma ConnectEventAt(m: TrackedMap, ds: seq<Device>, now: Instant, timeout: nat, i: nat)
    requires i < |ConnectEvents(m, ds, |ds|, now)|
    ensures ConnectEvents(m, ds, |ds|, now)[i].Connected?
    ensures KeyOf(ConnectEvents(m, ds, |ds|, now)[i].device) !in m
    ensures KeyOf(ConnectEvents(m, ds, |ds|, now)[i].device) in NextMap(m, ds, now, timeout)
  {
    ConnectEventsNewKeys(m, ds, |ds|, now);
    var k := KeyOf(ConnectEvents(m, ds, |ds|, now)[i].device);
    SightedIff(ds, k);
    SightedTracked(m, ds, now, timeout, k);
  }

  lemma ConnectPairDistinct(m: TrackedMap, ds: seq<Device>, now: Instant, i: nat, j: nat)
    requires i < j < |ConnectEvents(m, ds, |ds|, now)|
    ensures KeyOf(ConnectEvents(m, ds, |ds|, now)[i].device) != KeyOf(ConnectEvents(m, ds, |ds|, now)[j].device)
  {
    ConnectEventsDistinct(m, ds, |ds|, now);
  }

  /** How one poll's events line up with the map, key by key: no key gets
      two events; a CONNECTED key was untracked and is now tracked; a
      DISCONNECTED key was tracked and is now gone. */
  lemma PollEventsPerKey(events: seq<Event>, m: TrackedMap, ds: seq<Device>, now: Instant, timeout: nat)
    requires ReportsPoll(events, m, ds, now, timeout)
    ensures forall i, j :: 0 <= i < j < |events| ==> KeyOf(events[i].device) != KeyOf(events[j].device)
    ensures forall i :: 0 <= i < |events| && events[i].Connected? ==>
      KeyOf(events[i].device) !in m && KeyOf(events[i].device) in NextMap(m, ds, now, timeout)
    ensures forall i :: 0 <= i < |events| && events[i].Disconnected? ==>
      KeyOf(events[i].device) in m && KeyOf(events[i].device) !in NextMap(m, ds, now, timeout)
  {
    var nc := |ConnectEvents(m, ds, |ds|, now)|;
    var next := NextMap(m, ds, now, timeout);
    var merged := Merged(m, ds, |ds|, now);
    var removals := events[nc..];
    forall i | 0 <= i < nc
      ensures events[i] == ConnectEvents(m, ds, |ds|, now)[i]
      ensures events[i].Connected? && KeyOf(events[i].device) !in m && KeyOf(events[i].device) in next
    {
      assert events[i] == events[..nc][i];
      ConnectEventAt(m, ds, now, timeout, i);
    }
    forall i | nc <= i < |events|
      ensures events[i] == removals[i - nc]
      ensures events[i].Disconnected? && KeyOf(events[i].device) in m && KeyOf(events[i].device) !in next
    {
      ExpiredIff(m, ds, now, timeout, KeyOf(events[i].device));
    }
    forall i, j | 0 <= i < j < |events| ensures KeyOf(events[i].device) != KeyOf(events[j].device) {
      if j < nc {
        ConnectPairDistinct(m, ds, now, i, j);
      } else if nc <= i {
        assert removals[i - nc] == events[i] && removals[j - nc] == events[j];
      }
    }
  }

  /** A key goes in or out of the map only with an event of its own. */
  lemma PollKeyChange(events: seq<Event>, m: TrackedMap, ds: seq<Device>, now: Instant, timeout: nat, k: Key)
    requires ReportsPoll(events, m, ds, now, timeout)
    ensures (k in m) != (k in NextMap(m, ds, now, timeout)) ==>
      exists i :: 0 <= i < |events| && KeyOf(events[i].device) == k
  {
    var c := ConnectEvents(m, ds, |ds|, now);
    var merged := Merged(m, ds, |ds|, now);
    var removals := events[|c|..];
    NextMapSpec(m, ds, now, timeout, k);
    if k in m && k !in NextMap(m, ds, now, timeout) {
      if k in Keys(ds) {
        SightedTracked(m, ds, now, timeout, k);
      }
      ExpiredIff(m, ds, now, timeout, k);
      var i :| 0 <= i < |removals| && KeyOf(removals[i].device) == k;
      assert events[|c| + i] == removals[i];
    } else if k !in m && k in NextMap(m, ds, now, timeout) {
      SightedIff(ds, k);
      ConnectEventsComplete(m, ds, |ds|, now, k);
      var i :| 0 <= i < |ConnectEvents(m, ds, |ds|, now)| && KeyOf(ConnectEvents(m, ds, |ds|, now)[i].device) == k;
      assert events[i] == events[..|c|][i];
    }
  }
}
