/** The relay's `main` (`main.c`): the start-up guards, the first discovery
    pass, and the loop that waits on the listening socket and, for each
    outcome of `select`, exits, evicts and broadcasts, or drains the socket.
    The loop runs over a finite sequence of `select` outcomes; a run that
    uses them all up is still going. */
module EventLoop {
  import opened Types
  import opened RawPacket
  import opened Registry
  import opened PacketProcessing
  import Cmdline

  /** What one `select` call reports. `Timeout` carries the time
      `remove_stale_devices` reads and the socket outcomes of the broadcast
      that follows; `Ready` the datagrams the drain loop finds queued. */
  datatype Event =
    | Timeout(now: int, outs: nat -> BroadcastOutcomes)
    | Ready(arrivals: seq<Arrival>)
    | Error

  /** What the process does, in order. */
  datatype Action =
    | Listen                                               // `setup_listener` bound the listening socket
    | Discover(sent: seq<Broadcast>)                       // `send_discovery_packets`
    | Wait(seconds: int)                                   // `select` with `tv.tv_sec` set to `seconds`
    | Evict(now: int)                                      // `remove_stale_devices`
    | Serve(replies: seq<Option<seq<Option<Transmission>>>>) // `process_received_packet`
    | Exit(status: ExitStatus)                             // `exit`

  /** The actions of the loop iterations for `events`, waiting `seconds` each
      time: a wait, then a fatal exit on an error (which ends the run), the
      eviction followed by a broadcast on a timeout, or one drain on
      readiness. */
  predicate Follows(t: seq<Action>, events: seq<Event>, seconds: int)
  {
    if |events| == 0 then t == []
    else match events[0]
      case Error => t == [Wait(seconds), Exit(Failure)]
      case Timeout(now, _) =>
        |t| >= 3 && t[0] == Wait(seconds) && t[1] == Evict(now) && t[2].Discover?
        && Follows(t[3..], events[1..], seconds)
      case Ready(arrivals) =>
        |t| >= 2 && t[0] == Wait(seconds) && t[1].Serve? && |t[1].replies| == |arrivals|
        && Follows(t[2..], events[1..], seconds)
  }

  /** The iterations for `events` and then for one more event, when `events`
      holds no error. */
  lemma {:induction false} FollowsAppend(t: seq<Action>, events: seq<Event>, seconds: int, acts: seq<Action>, ev: Event)
    requires Follows(t, events, seconds) && Follows(acts, [ev], seconds)
    requires Error !in events
    ensures Follows(t + acts, events + [ev], seconds)
  {
    if |events| == 0 {
      assert t + acts == acts && events + [ev] == [ev];
    } else {
      assert events == [events[0]] + events[1..];
      assert (events + [ev])[1..] == events[1..] + [ev];
      match events[0]
      case Timeout(now, _) =>
        assert (t + acts)[3..] == t[3..] + acts;
        FollowsAppend(t[3..], events[1..], seconds, acts, ev);
      case Ready(arrivals) =>
        assert (t + acts)[2..] == t[2..] + acts;
        FollowsAppend(t[2..], events[1..], seconds, acts, ev);
    }
  }

  /** Within the iterations: every wait lasts `seconds`; an eviction at
      `now` comes right after a wait, for a timeout at `now`, and right
      before a broadcast; a drain comes right after a wait and for a ready
      socket; an exit ends the actions, with failure, and only for an
      error. */
  lemma {:induction false} ActionsInContext(t: seq<Action>, events: seq<Event>, seconds: int, i: nat)
    requires Follows(t, events, seconds) && i < |t|
    ensures t[i].Wait? ==> t[i] == Wait(seconds)
    ensures t[i].Evict? ==> 0 < i < |t| - 1 && t[i - 1] == Wait(seconds) && t[i + 1].Discover?
                            && exists k :: 0 <= k < |events| && events[k].Timeout? && events[k].now == t[i].now
    ensures t[i].Serve? ==> 0 < i && t[i - 1] == Wait(seconds)
                            && exists k :: 0 <= k < |events| && events[k].Ready?
    ensures t[i].Exit? ==> i == |t| - 1 && t[i] == Exit(Failure) && Error in events
    ensures !t[i].Listen?
  {
    match events[0]
    case Error =>
    case Timeout(now, _) =>
      if i >= 3 {
        ActionsInContext(t[3..], events[1..], seconds, i - 3);
        if t[i].Evict? || t[i].Serve? {
          var k :| 0 <= k < |events[1..]| && events[1..][k].Timeout? == t[i].Evict?
                   && (t[i].Evict? ==> events[1..][k].now == t[i].now)
                   && (t[i].Serve? ==> events[1..][k].Ready?);
          assert events[k + 1] == events[1..][k];
        }
        if t[i].Exit? {
          assert Error in events[1..];
        }
      } else if i == 1 {
        assert events[0].Timeout?;
      }
    case Ready(arrivals) =>
      if i >= 2 {
        ActionsInContext(t[2..], events[1..], seconds, i - 2);
        if t[i].Evict? || t[i].Serve? {
          var k :| 0 <= k < |events[1..]| && events[1..][k].Timeout? == t[i].Evict?
                   && (t[i].Evict? ==> events[1..][k].now == t[i].now)
                   && (t[i].Serve? ==> events[1..][k].Ready?);
          assert events[k + 1] == events[1..][k];
        }
        if t[i].Exit? {
          assert Error in events[1..];
        }
      } else if i == 1 {
        assert events[0].Ready?;
      }
  }

  /** The run exits during the loop if and only if `select` fails. */
  lemma {:induction false} ExitIffError(t: seq<Action>, events: seq<Event>, seconds: int)
    requires Follows(t, events, seconds)
    ensures Exit(Failure) in t <==> Error in events
  {
    if |events| > 0 {
      match events[0]
      case Error =>
        assert t[1] == Exit(Failure);
      case Timeout(now, _) =>
        ExitIffError(t[3..], events[1..], seconds);
        assert t == t[..3] + t[3..];
        assert events == [events[0]] + events[1..];
      case Ready(arrivals) =>
        ExitIffError(t[2..], events[1..], seconds);
        assert t == t[..2] + t[2..];
        assert events == [events[0]] + events[1..];
    }
  }

  // ---------------------------------------------------------------------------
  // The device list across one iteration

  /** The device list after one `select` outcome: the stale entries are
      removed on a timeout, the queued datagrams are handled on readiness,
      and an error changes nothing. */
  function NextDevices(devs: seq<Device>, ifs: seq<Interface>, timeoutInterval: int, ev: Event): seq<Device>
  {
    match ev
    case Timeout(now, _) => Survivors(devs, now, timeoutInterval)
    case Ready(arrivals) => Drain(devs, ifs, arrivals)
    case Error => devs
  }

  /** The interface list after one `select` outcome: the broadcast that
      follows a timeout rewrites the port of the interfaces it bound; nothing
      else touches the list. */
  function NextInterfaces(ifs: seq<Interface>, ev: Event): seq<Interface>
  {
    if ev.Timeout? then DiscoveryPass(ifs, ev.outs, 0).interfaces else ifs
  }

  /** The device and interface lists after the iterations for `events`, in
      order, starting from `devs` and `ifs`. */
  function After(devs: seq<Device>, ifs: seq<Interface>, timeoutInterval: int, events: seq<Event>)
    : (seq<Device>, seq<Interface>)
  {
    if |events| == 0 then (devs, ifs)
    else
      var (d, i) := After(devs, ifs, timeoutInterval, events[..|events| - 1]);
      var ev := events[|events| - 1];
      (NextDevices(d, i, timeoutInterval, ev), NextInterfaces(i, ev))
  }

  /** One more iteration after those for `events`. */
  lemma AfterSnoc(devs: seq<Device>, ifs: seq<Interface>, timeoutInterval: int, events: seq<Event>, ev: Event)
    ensures var (d, i) := After(devs, ifs, timeoutInterval, events);
            After(devs, ifs, timeoutInterval, events + [ev])
            == (NextDevices(d, i, timeoutInterval, ev), NextInterfaces(i, ev))
  {
    assert (events + [ev])[..|events|] == events;
  }

  /** Any number of iterations keeps one entry per (IP, port). */
  lemma {:induction false} AfterKeepsUnique(devs: seq<Device>, ifs: seq<Interface>, timeoutInterval: int, events: seq<Event>)
    requires UniqueSources(devs)
    ensures UniqueSources(After(devs, ifs, timeoutInterval, events).0)
  {
    if |events| > 0 {
      var prefix := events[..|events| - 1];
      AfterKeepsUnique(devs, ifs, timeoutInterval, prefix);
      var (d, i) := After(devs, ifs, timeoutInterval, prefix);
      NextKeepsUnique(d, i, timeoutInterval, events[|events| - 1]);
    }
  }

  /** Without a timeout nothing is evicted and the interface list stays as it
      was: every source present at the start is present after the iterations. */
  lemma {:induction false} AfterWithoutTimeout(devs: seq<Device>, ifs: seq<Interface>, timeoutInterval: int,
                                               events: seq<Event>, s: SockAddr)
    requires forall k :: 0 <= k < |events| ==> !events[k].Timeout?
    requires FindDevice(devs, s).Some?
    ensures FindDevice(After(devs, ifs, timeoutInterval, events).0, s).Some?
    ensures After(devs, ifs, timeoutInterval, events).1 == ifs
  {
    if |events| > 0 {
      var prefix := events[..|events| - 1];
      AfterWithoutTimeout(devs, ifs, timeoutInterval, prefix, s);
      var (d, i) := After(devs, ifs, timeoutInterval, prefix);
      OnlyTimeoutEvicts(d, i, timeoutInterval, events[|events| - 1], s);
    }
  }

  /** Every iteration keeps one entry per (IP, port). */
  lemma NextKeepsUnique(devs: seq<Device>, ifs: seq<Interface>, timeoutInterval: int, ev: Event)
    requires UniqueSources(devs)
    ensures UniqueSources(NextDevices(devs, ifs, timeoutInterval, ev))
  {
    match ev
    case Timeout(now, _) => SurvivorsKeepUnique(devs, now, timeoutInterval);
    case Ready(arrivals) => DrainKeepsUnique(devs, ifs, arrivals);
    case Error =>
  }

  /** Only a timeout removes devices: after any other outcome every source
      that was in the list still is. */
  lemma OnlyTimeoutEvicts(devs: seq<Device>, ifs: seq<Interface>, timeoutInterval: int, ev: Event, s: SockAddr)
    requires !ev.Timeout? && FindDevice(devs, s).Some?
    ensures FindDevice(NextDevices(devs, ifs, timeoutInterval, ev), s).Some?
  {
    if ev.Ready? {
      DrainKeepsSources(devs, ifs, ev.arrivals, s);
    }
  }

  /** A timeout keeps exactly the devices that are not stale at its time. */
  lemma TimeoutEvicts(devs: seq<Device>, ifs: seq<Interface>, timeoutInterval: int, ev: Event, d: Device)
    requires ev.Timeout?
    ensures d in NextDevices(devs, ifs, timeoutInterval, ev) <==> d in devs && !IsStale(d, ev.now, timeoutInterval)
  {
    SurvivorsMembership(devs, ev.now, timeoutInterval, d);
  }

  /** The sweep only removes entries, so cached payloads still fit. */
  lemma SurvivorsFit(devs: seq<Device>, now: int, timeoutInterval: int)
    requires PayloadsFit(devs)
    ensures PayloadsFit(Survivors(devs, now, timeoutInterval))
  {
    var r := Survivors(devs, now, timeoutInterval);
    forall i | 0 <= i < |r| ensures |r[i].payload| <= MAX_PAYLOAD {
      SurvivorsMembership(devs, now, timeoutInterval, r[i]);
    }
  }

  // ---------------------------------------------------------------------------
  // One iteration

  /** One pass of the `while (1)` loop after `select` returned with outcome
      `ev`. */
  method Step(env: Environment, ev: Event) returns (actions: seq<Action>)
    requires env.Valid() && PayloadsFit(env.devices)
    requires ev.Ready? ==> ResponsesFit(env.interfaces, ev.arrivals)
    modifies env
    ensures env.Valid() && PayloadsFit(env.devices)
    ensures Follows(actions, [ev], old(env.timeoutInterval))
    ensures env.devices == NextDevices(old(env.devices), old(env.interfaces), old(env.timeoutInterval), ev)
    ensures ev.Timeout? ==> && env.interfaces == DiscoveryPass(old(env.interfaces), ev.outs, 0).interfaces
                            && actions[2] == Discover(DiscoveryPass(old(env.interfaces), ev.outs, 0).sent)
    ensures !ev.Timeout? ==> env.interfaces == old(env.interfaces)
    ensures env.interfaces == NextInterfaces(old(env.interfaces), ev)
    ensures ev.Ready? ==> Reactions(actions[1].replies, old(env.devices), old(env.interfaces), ev.arrivals)
    ensures env.debuggingEnabled == old(env.debuggingEnabled) && env.timeoutInterval == old(env.timeoutInterval)
  {
    actions := [Wait(env.timeoutInterval)];
    match ev {
      case Error =>
        actions := actions + [Exit(Failure)];
      case Timeout(now, outs) =>
        SurvivorsKeepUnique(env.devices, now, env.timeoutInterval);
        SurvivorsFit(env.devices, now, env.timeoutInterval);
        RemoveStaleDevices(env, now);
        var sent := SendDiscoveryPackets(env, outs);
        actions := actions + [Evict(now), Discover(sent)];
        assert actions[3..] == [];
      case Ready(arrivals) =>
        DrainKeepsUnique(env.devices, env.interfaces, arrivals);
        DrainKeepsFit(env.devices, env.interfaces, arrivals);
        var replies := ProcessReceivedPacket(env, arrivals);
        actions := actions + [Serve(replies)];
        assert actions[2..] == [];
    }
  }

  // ---------------------------------------------------------------------------
  // main

  /** A datagram that carries the eISCP magic and the response signature;
      whether it is from one of the relay's own interfaces is not looked at. */
  predicate ResponseShaped(data: seq<byte>)
  {
    HasAt(data, |data|, 0, ISCP_MAGIC) && !HasAt(data, |data|, MESSAGE_OFFSET, QUERY_SIGNATURE)
    && HasAt(data, |data|, MESSAGE_OFFSET, RESPONSE_SIGNATURE)
  }

  /** Every response-shaped datagram among the events fits the forger's
      buffer once cached. */
  predicate EventsFit(events: seq<Event>)
  {
    forall k, j :: 0 <= k < |events| && events[k].Ready? && 0 <= j < |events[k].arrivals|
                   && ResponseShaped(events[k].arrivals[j].data)
                   ==> |events[k].arrivals[j].data| <= MAX_PAYLOAD
  }

  /** Whatever the interface list, a datagram the classifier takes for a
      response is response-shaped. */
  lemma EventsFitResponses(events: seq<Event>, k: nat, ifs: seq<Interface>)
    requires EventsFit(events) && k < |events| && events[k].Ready?
    ensures ResponsesFit(ifs, events[k].arrivals)
  {
    var arrivals := events[k].arrivals;
    forall j | 0 <= j < |arrivals| && Classify(arrivals[j].data, arrivals[j].sender, ifs) == DiscoveryResponse
      ensures |arrivals[j].data| <= MAX_PAYLOAD
    {
      assert ResponseShaped(arrivals[j].data);
    }
  }

  /** The interface list with each interface's address set to what the
      system reports for its name. */
  function Resolve(ifs: seq<Interface>, addressOf: string -> SockAddr): (r: seq<Interface>)
    ensures |r| == |ifs| && forall i :: 0 <= i < |ifs| ==> r[i] == Interface(ifs[i].name, addressOf(ifs[i].name))
  {
    if |ifs| == 0 then [] else [Interface(ifs[0].name, addressOf(ifs[0].name))] + Resolve(ifs[1..], addressOf)
  }

  /** `main`: refuses to run without root, parses the options, refuses to
      run without an interface, resolves the interfaces, detaches unless
      debugging is on, opens the listening socket, sends a first discovery
      pass and then handles the `select` outcomes in `events` in order.
      `daemonOk` says whether `daemonize` left a running daemon (both forks,
      `setsid`, and opening and locking the PID file succeeded); the trace
      follows that daemon. `status` is the exit status, `None` when the
      events run out first; `trace` is what happened. */
  method Run(euid: int, opts: seq<Cmdline.Opt>, atoi: string -> int, addressOf: string -> SockAddr,
             daemonOk: bool, listenerOk: bool, firstOuts: nat -> BroadcastOutcomes, events: seq<Event>)
    returns (status: Option<ExitStatus>, trace: seq<Action>)
    requires EventsFit(events)
    ensures euid != 0 ==> status == Some(Failure) && trace == [Exit(Failure)]
    ensures euid == 0 && Cmdline.ExitOf(opts).Some? ==> status == Cmdline.ExitOf(opts) && trace == [Exit(status.value)]
    ensures euid == 0 && Cmdline.ExitOf(opts).None? && Cmdline.ConfigureAll(opts, atoi).interfaces == []
            ==> status == Some(Failure) && trace == [Exit(Failure)]
    ensures var settings := Cmdline.ConfigureAll(opts, atoi);
            euid == 0 && Cmdline.ExitOf(opts).None? && settings.interfaces != []
            && ((!settings.debuggingEnabled && !daemonOk) || !listenerOk)
            ==> status == Some(Failure) && trace == [Exit(Failure)]
    ensures var settings := Cmdline.ConfigureAll(opts, atoi);
            euid == 0 && Cmdline.ExitOf(opts).None? && settings.interfaces != []
            && (settings.debuggingEnabled || daemonOk) && listenerOk
            ==> && |trace| >= 2 && trace[0] == Listen
                && trace[1] == Discover(DiscoveryPass(Resolve(settings.interfaces, addressOf), firstOuts, 0).sent)
                && (status == Some(Failure) <==> Error in events)
                && (status.None? <==> Error !in events)
                && Follows(trace[2..], if status.None? then events else events[..FirstError(events) + 1],
                           settings.timeoutInterval)
  {
    if euid != 0 {
      return Some(Failure), [Exit(Failure)];
    }
    var env := new Environment();
    var exit := Cmdline.HandleCommandLine(env, opts, atoi);
    if exit.Some? {
      return exit, [Exit(exit.value)];
    }
    assert opts[..Cmdline.Handled(opts)] == opts;
    if env.interfaces == [] {
      return Some(Failure), [Exit(Failure)];
    }
    env.interfaces := Resolve(env.interfaces, addressOf);
    if !env.debuggingEnabled && !daemonOk {
      return Some(Failure), [Exit(Failure)];
    }
    if !listenerOk {
      return Some(Failure), [Exit(Failure)];
    }
    var sent := SendDiscoveryPackets(env, firstOuts);
    var iterations;
    status, iterations := Loop(env, events);
    trace := [Listen, Discover(sent)] + iterations;
    assert trace[2..] == iterations;
  }

  /** The `while (1)` loop over the `select` outcomes in `events`: stops at
      the first error, with failure, or when the outcomes run out. */
  method Loop(env: Environment, events: seq<Event>) returns (status: Option<ExitStatus>, trace: seq<Action>)
    requires EventsFit(events) && env.Valid() && PayloadsFit(env.devices)
    modifies env
    ensures status == Some(Failure) <==> Error in events
    ensures status.None? <==> Error !in events
    ensures Follows(trace, if status.None? then events else events[..FirstError(events) + 1], old(env.timeoutInterval))
    ensures (env.devices, env.interfaces)
            == After(old(env.devices), old(env.interfaces), old(env.timeoutInterval),
                     if status.None? then events else events[..FirstError(events) + 1])
    ensures env.Valid() && PayloadsFit(env.devices)
    ensures env.timeoutInterval == old(env.timeoutInterval) && env.debuggingEnabled == old(env.debuggingEnabled)
  {
    trace := [];
    ghost var seconds := env.timeoutInterval;
    ghost var devs0, ifs0 := env.devices, env.interfaces;
    var k := 0;
    while k < |events|
      invariant 0 <= k <= |events| && Error !in events[..k]
      invariant Follows(trace, events[..k], seconds)
      invariant (env.devices, env.interfaces) == After(devs0, ifs0, seconds, events[..k])
      invariant env.Valid() && PayloadsFit(env.devices) && env.timeoutInterval == seconds
      invariant env.debuggingEnabled == old(env.debuggingEnabled)
    {
      var ev := events[k];
      var acts := Iterate(env, events, k, trace, devs0, ifs0);
      assert events[..k + 1] == events[..k] + [ev];
      trace := trace + acts;
      if ev.Error? {
        FirstErrorAt(events, k);
        return Some(Failure), trace;
      }
      k := k + 1;
    }
    assert events[..k] == events;
    status := None;
  }

  /** The iteration of the loop for the `k`th outcome, which keeps the loop's
      invariant: the actions so far are the iterations for the outcomes so
      far, and the lists are what those iterations leave. */
  method Iterate(env: Environment, events: seq<Event>, k: nat, ghost trace: seq<Action>,
                 ghost devs0: seq<Device>, ghost ifs0: seq<Interface>) returns (acts: seq<Action>)
    requires EventsFit(events) && k < |events| && Error !in events[..k]
    requires env.Valid() && PayloadsFit(env.devices)
    requires Follows(trace, events[..k], env.timeoutInterval)
    requires (env.devices, env.interfaces) == After(devs0, ifs0, env.timeoutInterval, events[..k])
    modifies env
    ensures env.Valid() && PayloadsFit(env.devices)
    ensures env.timeoutInterval == old(env.timeoutInterval) && env.debuggingEnabled == old(env.debuggingEnabled)
    ensures Follows(trace + acts, events[..k + 1], env.timeoutInterval)
    ensures (env.devices, env.interfaces) == After(devs0, ifs0, env.timeoutInterval, events[..k + 1])
  {
    var ev := events[k];
    if ev.Ready? {
      EventsFitResponses(events, k, env.interfaces);
    }
    ghost var seconds := env.timeoutInterval;
    acts := Step(env, ev);
    FollowsAppend(trace, events[..k], seconds, acts, ev);
    AfterSnoc(devs0, ifs0, seconds, events[..k], ev);
    assert events[..k + 1] == events[..k] + [ev];
  }

  /** The position of the first error among `events`, or `|events|`. */
  function FirstError(events: seq<Event>): (n: nat)
    ensures n <= |events| && (forall i :: 0 <= i < n ==> !events[i].Error?) && (n < |events| ==> events[n].Error?)
  {
    if |events| == 0 || events[0].Error? then 0 else 1 + FirstError(events[1..])
  }

  lemma FirstErrorAt(events: seq<Event>, k: nat)
    requires k < |events| && events[k].Error? && Error !in events[..k]
    ensures FirstError(events) == k && Error in events
  {
  }
}
