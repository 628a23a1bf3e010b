/** The device registry as values: what `handle_discovery_response` and
    `remove_stale_devices` do to the device list, head first, and the
    properties the relay relies on. The methods of `PacketProcessing` that
    update `Environment.devices` in place are proved against these. */
module Registry {
  import opened Types

  // ---------------------------------------------------------------------------
  // Lookup

  /** The position of the first device whose source is `src` (IP and port),
      the node the search loop of `handle_discovery_response` stops at. */
  function FindDevice(devs: seq<Device>, src: SockAddr): (r: Option<nat>)
    ensures r.Some? ==> r.value < |devs| && devs[r.value].source == src
    ensures r.Some? ==> forall j :: 0 <= j < r.value ==> devs[j].source != src
    ensures r.None? <==> forall j :: 0 <= j < |devs| ==> devs[j].source != src
  {
    if |devs| == 0 then None
    else if devs[0].source == src then Some(0)
    else match FindDevice(devs[1..], src)
      case None => None
      case Some(i) => Some(i + 1)
  }

  // ---------------------------------------------------------------------------
  // handle_discovery_response

  /** The list after a discovery response from `src` carrying `payload` at
      time `now`. An entry with that source gets its timestamp set to `now`
      and nothing else; otherwise, when both allocations succeed, a new entry
      is put at the head; when either fails the list is unchanged. */
  function RecordResponse(devs: seq<Device>, src: SockAddr, payload: seq<byte>, now: int,
                          nodeAllocOk: bool, payloadAllocOk: bool): seq<Device>
  {
    match FindDevice(devs, src)
    case Some(i) => devs[i := devs[i].(timestamp := now)]
    case None =>
      if nodeAllocOk && payloadAllocOk then [Device(src, payload, now)] + devs else devs
  }

  /** An entry that is already there has only its timestamp refreshed: the
      length, its payload and every other entry stay as they were. */
  lemma RecordExisting(devs: seq<Device>, i: nat, payload: seq<byte>, now: int, nodeAllocOk: bool, payloadAllocOk: bool)
    requires UniqueSources(devs) && i < |devs|
    ensures var r := RecordResponse(devs, devs[i].source, payload, now, nodeAllocOk, payloadAllocOk);
            && |r| == |devs|
            && r[i] == Device(devs[i].source, devs[i].payload, now)
            && forall j :: 0 <= j < |devs| && j != i ==> r[j] == devs[j]
  {
    var f := FindDevice(devs, devs[i].source);
    assert f.Some?;
    assert f.value == i;
  }

  /** A response from a new source, with both allocations succeeding, puts
      one entry at the head holding the payload verbatim and the time; the
      old list follows unchanged. */
  lemma RecordNew(devs: seq<Device>, src: SockAddr, payload: seq<byte>, now: int)
    requires forall j :: 0 <= j < |devs| ==> devs[j].source != src
    ensures var r := RecordResponse(devs, src, payload, now, true, true);
            && |r| == |devs| + 1
            && r[0] == Device(src, payload, now) && |r[0].payload| == |payload|
            && r[1..] == devs
  {
  }

  /** A failed allocation for a new source leaves the list exactly as it was. */
  lemma RecordAllocationFailure(devs: seq<Device>, src: SockAddr, payload: seq<byte>, now: int,
                                nodeAllocOk: bool, payloadAllocOk: bool)
    requires forall j :: 0 <= j < |devs| ==> devs[j].source != src
    requires !nodeAllocOk || !payloadAllocOk
    ensures RecordResponse(devs, src, payload, now, nodeAllocOk, payloadAllocOk) == devs
  {
  }

  /** The registry invariant survives every response: one entry per source. */
  lemma RecordKeepsUnique(devs: seq<Device>, src: SockAddr, payload: seq<byte>, now: int,
                          nodeAllocOk: bool, payloadAllocOk: bool)
    requires UniqueSources(devs)
    ensures UniqueSources(RecordResponse(devs, src, payload, now, nodeAllocOk, payloadAllocOk))
  {
    var r := RecordResponse(devs, src, payload, now, nodeAllocOk, payloadAllocOk);
    match FindDevice(devs, src)
    case Some(i) =>
      assert forall j :: 0 <= j < |r| ==> r[j].source == devs[j].source;
    case None =>
      if nodeAllocOk && payloadAllocOk {
        forall i, j | 0 <= i < j < |r| ensures r[i].source != r[j].source {
          if i > 0 {
            assert r[i] == devs[i - 1] && r[j] == devs[j - 1];
          }
        }
      }
  }

  /** After a response from `src` that did not fail for lack of memory, the
      list holds exactly one entry for `src`, last seen at `now`. */
  lemma RecordIsSeen(devs: seq<Device>, src: SockAddr, payload: seq<byte>, now: int,
                     nodeAllocOk: bool, payloadAllocOk: bool)
    requires UniqueSources(devs)
    requires FindDevice(devs, src).Some? || (nodeAllocOk && payloadAllocOk)
    ensures var r := RecordResponse(devs, src, payload, now, nodeAllocOk, payloadAllocOk);
            var f := FindDevice(r, src);
            && f.Some? && r[f.value].timestamp == now
            && forall j :: 0 <= j < |r| && j != f.value ==> r[j].source != src
  {
    RecordKeepsUnique(devs, src, payload, now, nodeAllocOk, payloadAllocOk);
    var r := RecordResponse(devs, src, payload, now, nodeAllocOk, payloadAllocOk);
    match FindDevice(devs, src)
    case Some(i) =>
      assert r[i].source == src;
    case None =>
      assert r[0].source == src;
  }

  /** A response never drops an entry: every source that was in the list
      still is. */
  lemma RecordKeepsSources(devs: seq<Device>, src: SockAddr, payload: seq<byte>, now: int,
                           nodeAllocOk: bool, payloadAllocOk: bool, s: SockAddr)
    requires FindDevice(devs, s).Some?
    ensures FindDevice(RecordResponse(devs, src, payload, now, nodeAllocOk, payloadAllocOk), s).Some?
  {
    var i := FindDevice(devs, s).value;
    var r := RecordResponse(devs, src, payload, now, nodeAllocOk, payloadAllocOk);
    match FindDevice(devs, src)
    case Some(_) =>
      assert r[i].source == s;
    case None =>
      if nodeAllocOk && payloadAllocOk {
        assert r[i + 1].source == s;
      }
  }

  /** Two responses from the same source leave one entry carrying the payload
      of the first and the time of the second: the cached payload is never
      replaced. */
  lemma RecordTwice(devs: seq<Device>, src: SockAddr, p1: seq<byte>, t1: int, p2: seq<byte>, t2: int,
                    nodeAllocOk: bool, payloadAllocOk: bool)
    requires forall j :: 0 <= j < |devs| ==> devs[j].source != src
    ensures RecordResponse(RecordResponse(devs, src, p1, t1, true, true), src, p2, t2, nodeAllocOk, payloadAllocOk)
            == [Device(src, p1, t2)] + devs
  {
    var r := RecordResponse(devs, src, p1, t1, true, true);
    assert r[0].source == src;
  }

  // ---------------------------------------------------------------------------
  // remove_stale_devices

  /** A device is stale when more than four timeout intervals have passed
      since it was last seen. */
  predicate IsStale(d: Device, now: int, timeoutInterval: int)
  {
    now - d.timestamp > 4 * timeoutInterval
  }

  /** The list `remove_stale_devices` leaves: the devices that are not stale,
      in their order. */
  function Survivors(devs: seq<Device>, now: int, timeoutInterval: int): (r: seq<Device>)
    ensures |r| <= |devs|
  {
    if |devs| == 0 then []
    else if IsStale(devs[|devs| - 1], now, timeoutInterval) then Survivors(devs[..|devs| - 1], now, timeoutInterval)
    else Survivors(devs[..|devs| - 1], now, timeoutInterval) + [devs[|devs| - 1]]
  }

  /** Sweeping a list in two parts sweeps each part and keeps their order. */
  lemma {:induction false} SurvivorsAppend(a: seq<Device>, b: seq<Device>, now: int, timeoutInterval: int)
    ensures Survivors(a + b, now, timeoutInterval)
            == Survivors(a, now, timeoutInterval) + Survivors(b, now, timeoutInterval)
    decreases |b|
  {
    if |b| > 0 {
      var b' := b[..|b| - 1];
      assert (a + b)[..|a + b| - 1] == a + b';
      SurvivorsAppend(a, b', now, timeoutInterval);
    } else {
      assert a + b == a;
    }
  }

  /** A device survives the sweep if and only if it was in the list and is
      not stale; an entry seen exactly four intervals ago survives. */
  lemma {:induction false} SurvivorsMembership(devs: seq<Device>, now: int, timeoutInterval: int, d: Device)
    ensures d in Survivors(devs, now, timeoutInterval) <==> d in devs && !IsStale(d, now, timeoutInterval)
  {
    if |devs| > 0 {
      var init := devs[..|devs| - 1];
      SurvivorsMembership(init, now, timeoutInterval, d);
      assert devs == init + [devs[|devs| - 1]];
    }
  }

  /** The sweep keeps the registry invariant. */
  lemma {:induction false} SurvivorsKeepUnique(devs: seq<Device>, now: int, timeoutInterval: int)
    requires UniqueSources(devs)
    ensures UniqueSources(Survivors(devs, now, timeoutInterval))
  {
    if |devs| > 0 {
      var init := devs[..|devs| - 1];
      var last := devs[|devs| - 1];
      SurvivorsKeepUnique(init, now, timeoutInterval);
      if !IsStale(last, now, timeoutInterval) {
        var s := Survivors(init, now, timeoutInterval);
        forall i | 0 <= i < |s| ensures s[i].source != last.source {
          SurvivorsMembership(init, now, timeoutInterval, s[i]);
          var k :| 0 <= k < |init| && init[k] == s[i];
          assert devs[k] == s[i];
        }
      }
    }
  }

  /** Sweeping twice at the same time removes nothing more. */
  lemma {:induction false} SurvivorsIdempotent(devs: seq<Device>, now: int, timeoutInterval: int)
    ensures Survivors(Survivors(devs, now, timeoutInterval), now, timeoutInterval)
            == Survivors(devs, now, timeoutInterval)
  {
    if |devs| > 0 {
      var init := devs[..|devs| - 1];
      var last := devs[|devs| - 1];
      SurvivorsIdempotent(init, now, timeoutInterval);
      if !IsStale(last, now, timeoutInterval) {
        var s := Survivors(init, now, timeoutInterval);
        assert (s + [last])[..|s + [last]| - 1] == s;
      }
    }
  }
}
