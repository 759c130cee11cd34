/**
 * `parse_ip_neigh_entries`: reads the output of `ip neigh show`, whose lines
 * look like `192.168.1.5 dev wlan0 lladdr aa:bb:cc:dd:ee:ff REACHABLE`.
 */
module NeighParser {
  import opened Wrappers
  import opened Text
  import opened Devices

  /** Token `j` is the keyword `kw` and another token follows it. */
  predicate Marks(parts: seq<string>, kw: string, j: nat) {
    j + 1 < |parts| && parts[j] == kw
  }

  /** The token after the last of the first `n` tokens that marks `kw`: what
      the scan loop has left in its variable after `n` steps, since each mark
      overwrites the previous one. */
  function AfterLast(parts: seq<string>, kw: string, n: nat): Option<string>
    requires n <= |parts|
  {
    if n == 0 then None
    else if Marks(parts, kw, n - 1) then Some(parts[n])
    else AfterLast(parts, kw, n - 1)
  }

  /** Token `j` is the last of the first `n` tokens that marks `kw`. */
  predicate LastMark(parts: seq<string>, kw: string, n: nat, j: nat) {
    j < n && Marks(parts, kw, j) && forall k :: j < k < n ==> !Marks(parts, kw, k)
  }

  /** Nothing is found exactly when no token marks the keyword. */
  lemma {:induction false} AfterLastNone(parts: seq<string>, kw: string, n: nat)
    requires n <= |parts|
    ensures AfterLast(parts, kw, n).None? <==> forall j :: 0 <= j < n ==> !Marks(parts, kw, j)
  {
    if n > 0 {
      AfterLastNone(parts, kw, n - 1);
    }
  }

  /** The token after the last mark is what is found. */
  lemma {:induction false} AfterLastIs(parts: seq<string>, kw: string, n: nat, j: nat)
    requires n <= |parts| && LastMark(parts, kw, n, j)
    ensures AfterLast(parts, kw, n) == Some(parts[j + 1])
  {
    if j < n - 1 {
      AfterLastIs(parts, kw, n - 1, j);
    }
  }

  /** Whatever is found follows a mark with no later mark. */
  lemma {:induction false} AfterLastSome(parts: seq<string>, kw: string, n: nat)
    requires n <= |parts| && AfterLast(parts, kw, n).Some?
    ensures exists j :: LastMark(parts, kw, n, j) && AfterLast(parts, kw, n).value == parts[j + 1]
  {
    if Marks(parts, kw, n - 1) {
      assert LastMark(parts, kw, n, n - 1);
    } else {
      AfterLastSome(parts, kw, n - 1);
      var j :| LastMark(parts, kw, n - 1, j) && AfterLast(parts, kw, n - 1).value == parts[j + 1];
      assert LastMark(parts, kw, n, j);
    }
  }

  /** The device one line of neighbor output contributes, if any. */
  function NeighLine(line: string, filter: Option<string>): Option<Device> {
    var parts := Words(line);
    if |parts| < 6 then None
    else
      var mac := AfterLast(parts, "lladdr", |parts|);
      var iface := AfterLast(parts, "dev", |parts|);
      if filter.Some? && iface.Some? && iface.value != filter.value then None
      else if mac.Some? && iface.Some? then Some(Device(parts[0], mac.value, iface.value))
      else None
  }

  /** What each line contributes, line by line. */
  function NeighEntries(lines: seq<string>, filter: Option<string>): (es: seq<Option<Device>>)
    ensures |es| == |lines|
  {
    seq(|lines|, i requires 0 <= i < |lines| => NeighLine(lines[i], filter))
  }

  /** The devices a sequence of neighbor lines contributes, in line order. */
  function NeighDevices(lines: seq<string>, filter: Option<string>): seq<Device> {
    Somes(NeighEntries(lines, filter))
  }

  /** The body of `parse_ip_neigh_entries`'s loop for one line: a scan of
      all tokens that overwrites `mac` after each `lladdr` and `iface` after
      each `dev`. A line whose interface fails the filter is skipped like one
      that is not an entry. */
  method ParseNeighLine(line: string, filter: Option<string>) returns (entry: Option<Device>)
    ensures entry == NeighLine(line, filter)
  {
    entry := None;
    var parts := Words(line);
    if |parts| >= 6 {
      var ip := parts[0];
      var mac: Option<string> := None;
      var iface: Option<string> := None;
      var i := 0;
      while i < |parts|
        invariant 0 <= i <= |parts|
        invariant mac == AfterLast(parts, "lladdr", i)
        invariant iface == AfterLast(parts, "dev", i)
      {
        if parts[i] == "lladdr" && i + 1 < |parts| {
          mac := Some(parts[i + 1]);
        } else if parts[i] == "dev" && i + 1 < |parts| {
          iface := Some(parts[i + 1]);
        }
        i := i + 1;
      }
      if filter.Some? && iface.Some? && iface.value != filter.value {
      } else if mac.Some? && iface.Some? {
        entry := Some(Device(ip, mac.value, iface.value));
      }
    }
  }

  /** `parse_ip_neigh_entries`: appends the devices of `content`'s lines to
      `devices`, in line order. */
  method ParseIpNeighEntries(content: string, devices: seq<Device>, filter: Option<string>)
    returns (devices': seq<Device>)
    ensures devices' == devices + NeighDevices(Lines(content), filter)
  {
    devices' := devices;
    var lines := Lines(content);
    ghost var entries := NeighEntries(lines, filter);
    for i := 0 to |lines|
      invariant devices' == devices + Somes(entries[..i])
    {
      var entry := ParseNeighLine(lines[i], filter);
      SomesPrefix(entries, i);
      AppendAssoc(devices, Somes(entries[..i]), entry.ToSeq());
      devices' := devices' + entry.ToSeq();
    }
    assert entries[..|lines|] == entries;
  }

  /** When a line is accepted and what is taken from it: it must have at
      least six whitespace-separated tokens, a `lladdr` and a `dev` token each
      followed by another token, and the interface must match the filter; the
      address is token 0, and the MAC and interface are the tokens after the
      last `lladdr` and the last `dev`. */
  lemma NeighLineAccepted(line: string, filter: Option<string>)
    ensures var parts := Words(line);
      NeighLine(line, filter).Some? <==>
        |parts| >= 6 &&
        AfterLast(parts, "lladdr", |parts|).Some? &&
        AfterLast(parts, "dev", |parts|).Some? &&
        (filter.None? || AfterLast(parts, "dev", |parts|).value == filter.value)
    ensures var parts := Words(line);
      NeighLine(line, filter).Some? ==>
        NeighLine(line, filter).value ==
          Device(parts[0], AfterLast(parts, "lladdr", |parts|).value, AfterLast(parts, "dev", |parts|).value)
  {
  }

  /** The accepted MAC and interface are the tokens after the last marks. */
  lemma NeighLineLastMarks(line: string, filter: Option<string>)
    requires NeighLine(line, filter).Some?
    ensures var parts := Words(line);
      var d := NeighLine(line, filter).value;
      (exists j :: LastMark(parts, "lladdr", |parts|, j) && d.macAddress == parts[j + 1]) &&
      (exists j :: LastMark(parts, "dev", |parts|, j) && d.interface == parts[j + 1])
  {
    var parts := Words(line);
    AfterLastSome(parts, "lladdr", |parts|);
    AfterLastSome(parts, "dev", |parts|);
  }

  /** What the parser guarantees of everything it appends: only the filtered
      interface, and only devices taken from a line of the input; and every
      accepted line contributes its device. */
  lemma NeighDevicesSound(lines: seq<string>, filter: Option<string>)
    ensures |NeighDevices(lines, filter)| <= |lines|
    ensures forall d :: d in NeighDevices(lines, filter) ==>
      (filter.Some? ==> d.interface == filter.value) &&
      exists j :: 0 <= j < |lines| && NeighLine(lines[j], filter) == Some(d)
    ensures forall j :: 0 <= j < |lines| && NeighLine(lines[j], filter).Some? ==>
      NeighLine(lines[j], filter).value in NeighDevices(lines, filter)
  {
    var es := NeighEntries(lines, filter);
    SomesMembers(es);
    forall d | d in NeighDevices(lines, filter)
      ensures filter.Some? ==> d.interface == filter.value
      ensures exists j :: 0 <= j < |lines| && NeighLine(lines[j], filter) == Some(d)
    {
      var j :| 0 <= j < |es| && es[j] == Some(d);
      NeighLineAccepted(lines[j], filter);
    }
    forall j | 0 <= j < |lines| && NeighLine(lines[j], filter).Some?
      ensures NeighLine(lines[j], filter).value in NeighDevices(lines, filter)
    {
      assert es[j] == NeighLine(lines[j], filter);
    }
  }

  /** Parsing two blocks of lines is parsing each in turn. */
  lemma NeighDevicesAppend(a: seq<string>, b: seq<string>, filter: Option<string>)
    ensures NeighDevices(a + b, filter) == NeighDevices(a, filter) + NeighDevices(b, filter)
  {
    assert NeighEntries(a + b, filter) == NeighEntries(a, filter) + NeighEntries(b, filter);
    SomesAppend(NeighEntries(a, filter), NeighEntries(b, filter));
  }

  /** The line layout `ip neigh show` prints, `ip dev iface lladdr mac state`,
      yields exactly its address, MAC and interface, as long as neither the
      interface nor the MAC is itself a keyword that a later mark would
      displace. */
  lemma NeighLineOfLayout(ip: string, iface: string, mac: string, state: string, filter: Option<string>)
    requires AreWords([ip, iface, mac, state])
    requires iface != "dev" && mac != "dev" && mac != "lladdr"
    requires filter.None? || filter.value == iface
    ensures NeighLine(Join([ip, "dev", iface, "lladdr", mac, state], " "), filter) ==
      Some(Device(ip, mac, iface))
  {
    var fields := [ip, iface, mac, state];
    var parts := [ip, "dev", iface, "lladdr", mac, state];
    assert AreWords(parts) by {
      forall k | 0 <= k < |parts| ensures parts[k] != [] && NoSpace(parts[k]) {
        if k == 0 { assert parts[k] == fields[0]; }
        if k == 2 { assert parts[k] == fields[1]; }
        if k == 4 { assert parts[k] == fields[2]; }
        if k == 5 { assert parts[k] == fields[3]; }
      }
    }
    WordsOfJoin(parts);
    assert LastMark(parts, "lladdr", 6, 3);
    AfterLastIs(parts, "lladdr", 6, 3);
    assert LastMark(parts, "dev", 6, 1);
    AfterLastIs(parts, "dev", 6, 1);
  }
}
