/**
 * `get_network_devices`: one shell runs `arp -a -n`, echoes a marker line and
 * runs `ip neigh show`; the text before the first marker goes to the ARP
 * parser and the text between the first and second marker to the neighbor
 * parser. The shell itself is not modelled: its outcome is an input.
 */
module Discovery {
  import opened Wrappers
  import opened Text
  import opened Devices
  import opened ArpParser
  import opened NeighParser

  /** The marker the script echoes between the two commands' outputs. */
  const SplitMarker: string := "===SPLIT==="

  /** The devices found in the combined output text: none unless the marker
      occurs, else the ARP devices of the first piece followed by the
      neighbor devices of the second. */
  function DevicesFromOutput(content: string, filter: Option<string>): seq<Device> {
    var parts := SplitOn(content, SplitMarker);
    if |parts| < 2 then []
    else ArpDevices(Lines(parts[0]), filter) + NeighDevices(Lines(parts[1]), filter)
  }

  /** What running the script gave: the process could not be run at all, or
      it finished with a success status or not and printed `stdout`. */
  datatype Acquisition = SpawnError(message: string) | Finished(success: bool, stdout: string)

  /** The result `get_network_devices` returns for an acquisition: the spawn
      error is passed on; an unsuccessful run yields no devices. */
  function NetworkDevices(acq: Acquisition, filter: Option<string>): Result<seq<Device>, string> {
    match acq
    case SpawnError(msg) => Err(msg)
    case Finished(ok, out) => Ok(if ok then DevicesFromOutput(out, filter) else [])
  }

  /** `get_network_devices` without the process call: both parsers push into
      one vector, the ARP entries first. */
  method GetNetworkDevices(acq: Acquisition, filter: Option<string>)
    returns (r: Result<seq<Device>, string>)
    ensures r == NetworkDevices(acq, filter)
  {
    if acq.SpawnError? {
      return Err(acq.message);
    }
    var devices: seq<Device> := [];
    if acq.success {
      var parts := SplitOn(acq.stdout, SplitMarker);
      if |parts| >= 2 {
        devices := ParseArpEntries(parts[0], devices, filter);
        devices := ParseIpNeighEntries(parts[1], devices, filter);
        assert [] + ArpDevices(Lines(parts[0]), filter) == ArpDevices(Lines(parts[0]), filter);
      }
    }
    return Ok(devices);
  }

  /** Only a failure to run the script is an error. */
  lemma NetworkDevicesErr(acq: Acquisition, filter: Option<string>)
    ensures NetworkDevices(acq, filter).Err? <==> acq.SpawnError?
    ensures acq.Finished? && !acq.success ==> NetworkDevices(acq, filter) == Ok([])
  {
  }

  /** Without the marker nothing is found. */
  lemma DispatchNoMarker(content: string, filter: Option<string>)
    requires !Contains(content, SplitMarker)
    ensures DevicesFromOutput(content, filter) == []
  {
    SplitOnCount(content, SplitMarker);
  }

  /** The devices found when the marker first occurs at `p`. */
  lemma DevicesFromOutputAt(content: string, filter: Option<string>, p: nat)
    requires FirstAt(content, SplitMarker, p)
    ensures DevicesFromOutput(content, filter) ==
      ArpDevices(Lines(content[..p]), filter) +
      NeighDevices(Lines(SplitOn(content[p + |SplitMarker|..], SplitMarker)[0]), filter)
  {
    SplitOnFirst(content, SplitMarker, p);
  }

  /** `content` is `a`, the marker, `b` and `rest`, where the marker
      occurs first right after `a`, and `b` runs up to the next occurrence
      (which starts `rest`) or to the end. */
  predicate Dispatched(content: string, a: string, b: string, rest: string) {
    content == a + SplitMarker + b + rest &&
    FirstAt(content, SplitMarker, |a|) &&
    (rest == [] ==> !Contains(b, SplitMarker)) &&
    (rest != [] ==> FirstAt(b + rest, SplitMarker, |b|))
  }

  /** With the marker, the ARP text is everything before its first occurrence
      and the neighbor text everything from there to the next occurrence, or
      to the end when there is none. */
  lemma DispatchParts(content: string, filter: Option<string>)
    requires Contains(content, SplitMarker)
    ensures exists a: string, b: string, rest: string ::
      Dispatched(content, a, b, rest) &&
      DevicesFromOutput(content, filter) == ArpDevices(Lines(a), filter) + NeighDevices(Lines(b), filter)
  {
    var m := SplitMarker;
    var p := FindFirst(content, m).value;
    FindFirstAt(content, m, p);
    var a := content[..p];
    var after := content[p + |m|..];
    SplitOnHead(after, m);
    var b := SplitOn(after, m)[0];
    var rest := after[|b|..];
    DispatchedAt(content, p);
    DevicesFromOutputAt(content, filter, p);
    assert Dispatched(content, a, b, rest);
  }

  lemma DispatchedAt(content: string, p: nat)
    requires FirstAt(content, SplitMarker, p)
    ensures var after := content[p + |SplitMarker|..];
      var b := SplitOn(after, SplitMarker)[0];
      Dispatched(content, content[..p], b, after[|b|..])
  {
    var m := SplitMarker;
    SplitOnFirst(content, m, p);
    var a := content[..p];
    var after := content[p + |m|..];
    SplitOnHead(after, m);
    var b := SplitOn(after, m)[0];
    var rest := after[|b|..];
    AppendAssoc(a + m, b, rest);
    assert |a| == p;
  }

  /** A text that ends in a line feed holds no marker running past its end,
      since the marker holds no line feed. */
  lemma NoMarkerAcrossNewline(x: string, y: string, j: nat)
    requires x == [] || x[|x| - 1] == '\n'
    requires !Contains(x, SplitMarker)
    requires j < |x|
    ensures !OccursAt(x + y, SplitMarker, j)
  {
    var m := SplitMarker;
    ContainsIff(x, m);
    if OccursAt(x + y, m, j) {
      if j + |m| <= |x| {
        OccursInLeft(x, y, m, j);
      } else {
        CharOfOccurrence(x + y, m, j, |x| - 1);
      }
    }
  }

  /** The marker occurs first where the script echoed it. */
  lemma MarkerFirstAt(arp: string, rest: string)
    requires arp == [] || arp[|arp| - 1] == '\n'
    requires !Contains(arp, SplitMarker)
    ensures FirstAt(arp + SplitMarker + rest, SplitMarker, |arp|)
  {
    var m := SplitMarker;
    var s := arp + m + rest;
    assert s[|arp|..|arp| + |m|] == m;
    forall j: nat | j < |arp| ensures !OccursAt(s, m, j) {
      NoMarkerAcrossNewline(arp, m + rest, j);
      assert arp + (m + rest) == s;
    }
  }

  /** A neighbor text after the marker line's line feed holds no marker. */
  lemma NoMarkerAfterNewline(neigh: string)
    requires !Contains(neigh, SplitMarker)
    ensures !Contains("\n" + neigh, SplitMarker)
  {
    var m := SplitMarker;
    var s := "\n" + neigh;
    ContainsIff(s, m);
    ContainsIff(neigh, m);
    forall j: nat ensures !OccursAt(s, m, j) {
      if OccursAt(s, m, j) {
        if j == 0 {
          CharOfOccurrence(s, m, 0, 0);
        } else {
          OccursInRight("\n", neigh, m, j);
        }
      }
    }
  }

  /** The empty line the marker line leaves in front of the neighbor output
      yields nothing. */
  lemma LeadingNewline(neigh: string, filter: Option<string>)
    ensures NeighDevices(Lines("\n" + neigh), filter) == NeighDevices(Lines(neigh), filter)
  {
    var s := "\n" + neigh;
    assert LineLen(s) == 0;
    assert s[1..] == neigh;
    assert Lines(s) == [""] + Lines(neigh);
    NeighDevicesAppend([""], Lines(neigh), filter);
    assert Words("") == [];
    var none: seq<Option<Device>> := [None];
    assert NeighEntries([""], filter) == none;
    assert Somes(none) == Somes(none[..0]) + none[0].ToSeq();
  }

  /** The output of the script as it is written: the ARP output, the echoed
      marker with its line feed, then the neighbor output. When neither
      command prints the marker and the ARP output ends with a line feed, the
      result is the ARP devices followed by the neighbor devices. */
  lemma ScriptOutput(arp: string, neigh: string, filter: Option<string>)
    requires arp == [] || arp[|arp| - 1] == '\n'
    requires !Contains(arp, SplitMarker) && !Contains(neigh, SplitMarker)
    ensures DevicesFromOutput(arp + SplitMarker + "\n" + neigh, filter) ==
      ArpDevices(Lines(arp), filter) + NeighDevices(Lines(neigh), filter)
  {
    var m := SplitMarker;
    var after := "\n" + neigh;
    var content := arp + m + after;
    AppendAssoc(arp + m, "\n", neigh);
    MarkerFirstAt(arp, after);
    SplitOnFirst(content, m, |arp|);
    assert content[..|arp|] == arp;
    assert content[|arp| + |m|..] == after;
    NoMarkerAfterNewline(neigh);
    assert SplitOn(after, m) == [after];
    LeadingNewline(neigh, filter);
  }
}
