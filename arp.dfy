/**
 * `parse_arp_entries`: reads the output of `arp -a -n`, whose lines look like
 * `? (192.168.1.1) at aa:bb:cc:dd:ee:ff [ether] on wlan0`.
 */
module ArpParser {
  import opened Wrappers
  import opened Text
  import opened Devices

  /** Loopback, multicast and broadcast addresses, which the parser drops. */
  predicate IsReservedIp(ip: string) {
    StartsWith(ip, "127.") || StartsWith(ip, "224.") || StartsWith(ip, "255.") || ip == "::1"
  }

  /** The address token with its parentheses stripped. */
  function ArpIp(token: string): string {
    TrimEndMatches(TrimStartMatches(token, '('), ')')
  }

  /** The device one line of ARP output contributes, if any. */
  function ArpLine(line: string, filter: Option<string>): Option<Device> {
    if !(Contains(line, "at") && Contains(line, "on")) then None
    else
      var parts := Words(line);
      if |parts| < 7 then None
      else
        var ip := ArpIp(parts[1]);
        var iface := parts[6];
        if filter.Some? && iface != filter.value then None
        else if IsReservedIp(ip) then None
        else Some(Device(ip, parts[3], iface))
  }

  /** What each line contributes, line by line. */
  function ArpEntries(lines: seq<string>, filter: Option<string>): (es: seq<Option<Device>>)
    ensures |es| == |lines|
  {
    seq(|lines|, i requires 0 <= i < |lines| => ArpLine(lines[i], filter))
  }

  /** The devices a sequence of ARP lines contributes, in line order. */
  function ArpDevices(lines: seq<string>, filter: Option<string>): seq<Device> {
    Somes(ArpEntries(lines, filter))
  }

  /** `parse_arp_entries`: appends the devices of `content`'s lines to
      `devices`, in line order. A line whose interface fails the filter is
      skipped like one that is not an entry. */
  method ParseArpEntries(content: string, devices: seq<Device>, filter: Option<string>)
    returns (devices': seq<Device>)
    ensures devices' == devices + ArpDevices(Lines(content), filter)
  {
    devices' := devices;
    var lines := Lines(content);
    ghost var entries := ArpEntries(lines, filter);
    for i := 0 to |lines|
      invariant devices' == devices + Somes(entries[..i])
    {
      var line := lines[i];
      SomesPrefix(entries, i);
      AppendAssoc(devices, Somes(entries[..i]), entries[i].ToSeq());
      if Contains(line, "at") && Contains(line, "on") {
        var parts := Words(line);
        if |parts| >= 7 {
          var ip := ArpIp(parts[1]);
          var mac := parts[3];
          var iface := parts[6];
          if filter.None? || iface == filter.value {
            if !IsReservedIp(ip) {
              devices' := devices' + [Device(ip, mac, iface)];
            }
          }
        }
      }
    }
    assert entries[..|lines|] == entries;
  }

  /** When a line is accepted and what is taken from it: it must contain the
      substrings "at" and "on" and have at least seven whitespace-separated
      tokens; the interface (token 6) must match the filter and the address
      (token 1 without its parentheses) must not be reserved; the MAC is
      token 3. */
  lemma ArpLineAccepted(line: string, filter: Option<string>)
    ensures ArpLine(line, filter).Some? <==>
      Contains(line, "at") && Contains(line, "on") && |Words(line)| >= 7 &&
      (filter.None? || Words(line)[6] == filter.value) &&
      !IsReservedIp(ArpIp(Words(line)[1]))
    ensures ArpLine(line, filter).Some? ==>
      var parts := Words(line);
      ArpLine(line, filter).value == Device(ArpIp(parts[1]), parts[3], parts[6])
  {
  }

  /** Stripping keeps a token free of whitespace and leaves no `(` in front
      and no `)` behind. */
  lemma ArpIpShape(token: string)
    requires NoSpace(token)
    ensures var ip := ArpIp(token);
      NoSpace(ip) && (ip != [] ==> ip[0] != '(' && ip[|ip| - 1] != ')')
  {
    var mid := TrimStartMatches(token, '(');
    var ip := TrimEndMatches(mid, ')');
    TrimStartSpec(token, '(');
    TrimEndSpec(mid, ')');
    forall i | 0 <= i < |ip| ensures !IsSpace(ip[i]) {
      assert ip[i] == mid[i] == token[|token| - |mid| + i];
    }
  }

  /** Every device taken from a line has a non-empty MAC and interface free of
      whitespace, and an address free of whitespace with no leading `(` and no
      trailing `)`. */
  lemma ArpLineShape(line: string, filter: Option<string>)
    requires ArpLine(line, filter).Some?
    ensures var d := ArpLine(line, filter).value;
      d.macAddress != [] && NoSpace(d.macAddress) &&
      d.interface != [] && NoSpace(d.interface) &&
      NoSpace(d.ipAddress) &&
      (d.ipAddress != [] ==> d.ipAddress[0] != '(' && d.ipAddress[|d.ipAddress| - 1] != ')')
  {
    var parts := Words(line);
    WordsShape(line);
    ArpIpShape(parts[1]);
  }

  /** What the parser guarantees of everything it appends: no reserved
      addresses, only the filtered interface, and only devices taken from a
      line of the input; and every accepted line contributes its device. */
  lemma ArpDevicesSound(lines: seq<string>, filter: Option<string>)
    ensures |ArpDevices(lines, filter)| <= |lines|
    ensures forall d :: d in ArpDevices(lines, filter) ==>
      !IsReservedIp(d.ipAddress) &&
      (filter.Some? ==> d.interface == filter.value) &&
      exists j :: 0 <= j < |lines| && ArpLine(lines[j], filter) == Some(d)
    ensures forall j :: 0 <= j < |lines| && ArpLine(lines[j], filter).Some? ==>
      ArpLine(lines[j], filter).value in ArpDevices(lines, filter)
  {
    var es := ArpEntries(lines, filter);
    SomesMembers(es);
    forall d | d in ArpDevices(lines, filter)
      ensures !IsReservedIp(d.ipAddress) && (filter.Some? ==> d.interface == filter.value)
      ensures exists j :: 0 <= j < |lines| && ArpLine(lines[j], filter) == Some(d)
    {
      var j :| 0 <= j < |es| && es[j] == Some(d);
      ArpLineAccepted(lines[j], filter);
    }
    forall j | 0 <= j < |lines| && ArpLine(lines[j], filter).Some?
      ensures ArpLine(lines[j], filter).value in ArpDevices(lines, filter)
    {
      assert es[j] == ArpLine(lines[j], filter);
    }
  }

  /** Parsing two blocks of lines is parsing each in turn. */
  lemma ArpDevicesAppend(a: seq<string>, b: seq<string>, filter: Option<string>)
    ensures ArpDevices(a + b, filter) == ArpDevices(a, filter) + ArpDevices(b, filter)
  {
    assert ArpEntries(a + b, filter) == ArpEntries(a, filter) + ArpEntries(b, filter);
    SomesAppend(ArpEntries(a, filter), ArpEntries(b, filter));
  }

  /** The line layout `arp -a -n` prints, `? (ip) at mac [hw] on iface`,
      yields exactly its address, MAC and interface, for every address that
      is not reserved and not itself wrapped in parentheses. */
  lemma ArpLineOfLayout(ip: string, mac: string, hw: string, iface: string, filter: Option<string>)
    requires ip != [] && AreWords([ip, mac, hw, iface])
    requires ip[0] != '(' && ip[|ip| - 1] != ')'
    requires !IsReservedIp(ip)
    requires filter.None? || filter.value == iface
    ensures ArpLine(Join(["?", "(" + ip + ")", "at", mac, hw, "on", iface], " "), filter) ==
      Some(Device(ip, mac, iface))
  {
    var fields := [ip, mac, hw, iface];
    var paren := "(" + ip + ")";
    var ws := ["?", paren, "at", mac, hw, "on", iface];
    assert NoSpace(paren) by {
      assert NoSpace(fields[0]);
      forall k | 0 <= k < |paren| ensures !IsSpace(paren[k]) {
        if 0 < k < |paren| - 1 {
          assert paren[k] == ip[k - 1];
        }
      }
    }
    assert AreWords(ws) by {
      forall k | 0 <= k < |ws| ensures ws[k] != [] && NoSpace(ws[k]) {
        if k == 3 { assert ws[k] == fields[1]; }
        if k == 4 { assert ws[k] == fields[2]; }
        if k == 6 { assert ws[k] == fields[3]; }
      }
    }
    WordsOfJoin(ws);
    ContainsJoin(ws, " ", 2);
    ContainsJoin(ws, " ", 5);
    ArpIpOfParens(ip);
  }

  /** Stripping the parentheses of `(ip)` gives `ip` back. */
  lemma ArpIpOfParens(ip: string)
    requires ip != [] && ip[0] != '(' && ip[|ip| - 1] != ')'
    ensures ArpIp("(" + ip + ")") == ip
  {
    var s := "(" + ip + ")";
    assert SkipFrom(s, '(', 1) == 1;
    var mid := s[1..];
    assert mid == ip + ")";
    assert SkipBack(mid, ')', |mid| - 1) == |mid| - 1;
    assert mid[..|mid| - 1] == ip;
  }
}
