/**
 * `ManagerNetworkMonitor.kt`: the connectivity stream. A registered callback keeps the set of
 * networks with the internet capability and sends, on every event, whether any is left.
 * `flowOn`, `conflate` and the unregistration on close are not modelled.
 */
module NetworkMonitor {
  import opened Wrappers

  /** `NetworkCapabilities.NET_CAPABILITY_INTERNET` */
  const NetCapabilityInternet: int := 12

  /** What the connectivity manager reports about the active network. */
  datatype Connectivity = Connectivity(activeCapabilities: Option<set<int>>)

  /** `isCurrentlyConnected()`: false when there is no active network or no capabilities for it. */
  function IsCurrentlyConnected(c: Connectivity): (connected: bool)
    ensures connected <==> c.activeCapabilities.Some? && NetCapabilityInternet in c.activeCapabilities.value
  {
    match c.activeCapabilities
    case None => false
    case Some(caps) => NetCapabilityInternet in caps
  }

  datatype NetworkEvent<N> = Available(network: N) | Lost(network: N)

  /** The callback's set after one event. */
  function Apply<N>(networks: set<N>, e: NetworkEvent<N>): set<N> {
    match e
    case Available(n) => networks + {n}
    case Lost(n) => networks - {n}
  }

  /** What the callback sends for one event: `true` on `onAvailable`, non-emptiness on `onLost`. */
  function Sent<N>(networks: set<N>, e: NetworkEvent<N>): bool {
    match e
    case Available(_) => true
    case Lost(_) => Apply(networks, e) != {}
  }

  /** The callback's set after a run of events. */
  function Final<N>(networks: set<N>, events: seq<NetworkEvent<N>>): set<N>
    decreases |events|
  {
    if events == [] then networks else Final(Apply(networks, events[0]), events[1..])
  }

  /** Everything the callback sends for a run of events, in order. */
  function Replay<N>(networks: set<N>, events: seq<NetworkEvent<N>>): (sent: seq<bool>)
    ensures |sent| == |events|
    decreases |events|
  {
    if events == [] then [] else [Sent(networks, events[0])] + Replay(Apply(networks, events[0]), events[1..])
  }

  /** Replaying one more event appends its one emission. */
  lemma {:induction false} ReplaySnoc<N>(networks: set<N>, events: seq<NetworkEvent<N>>, e: NetworkEvent<N>)
    ensures Final(networks, events + [e]) == Apply(Final(networks, events), e)
    ensures Replay(networks, events + [e]) == Replay(networks, events) + [Sent(Final(networks, events), e)]
    decreases |events|
  {
    if events == [] {
      assert events + [e] == [e];
    } else {
      assert (events + [e])[1..] == events[1..] + [e];
      ReplaySnoc(Apply(networks, events[0]), events[1..], e);
    }
  }

  /** Every emission says whether, after that event, at least one network is registered. */
  lemma {:induction false} ReplayIsNonEmptiness<N>(networks: set<N>, events: seq<NetworkEvent<N>>, i: nat)
    requires i < |events|
    ensures Replay(networks, events)[i] == (Final(networks, events[..i + 1]) != {})
    decreases |events|
  {
    if i == 0 {
      assert events[..1] == [events[0]];
      assert Final(networks, [events[0]]) == Apply(networks, events[0]);
    } else {
      ReplayIsNonEmptiness(Apply(networks, events[0]), events[1..], i - 1);
      assert events[1..][..i] == events[..i + 1][1..];
    }
  }

  /** Set semantics: a network announced twice is gone after one loss. */
  lemma TwiceAvailableOnceLost<N>(n: N)
    ensures Replay({}, [Available(n), Available(n), Lost(n)]) == [true, true, false]
  {
    var events := [Available(n), Available(n), Lost(n)];
    assert Apply({}, Available(n)) == {n};
    assert Apply({n}, Available(n)) == {n};
    assert Apply({n}, Lost(n)) == {};
    assert events[1..][1..] == [Lost(n)];
    assert Replay({n}, [Lost(n)]) == [false];
    assert Replay({n}, events[1..]) == [true, false];
  }

  /** Losing an unknown network leaves the set as it was. */
  lemma LosingUnknownNetwork<N>(networks: set<N>, n: N)
    requires n !in networks
    ensures Apply(networks, Lost(n)) == networks
    ensures Sent(networks, Lost(n)) == (networks != {})
  {
  }

  /** `isAvailable`: without a connectivity manager one `false`; otherwise the current state, then the callback's. */
  function IsAvailable<N(==)>(manager: Option<Connectivity>, events: seq<NetworkEvent<N>>): (s: seq<bool>)
    ensures manager.None? ==> s == [false]
    ensures manager.Some? ==> |s| == |events| + 1 && s[0] == IsCurrentlyConnected(manager.value)
    ensures manager.Some? ==> s[1..] == Replay({}, events)
  {
    match manager
    case None => [false]
    case Some(c) => [IsCurrentlyConnected(c)] + Replay({}, events)
  }

  /** After the initial value, emission i + 1 says whether a network is registered after event i. */
  lemma IsAvailableAfterEvent<N>(manager: Option<Connectivity>, events: seq<NetworkEvent<N>>, i: nat)
    requires manager.Some? && i < |events|
    ensures IsAvailable(manager, events)[i + 1] == (Final({}, events[..i + 1]) != {})
  {
    ReplayIsNonEmptiness({}, events, i);
  }

  /** `isUnavailable`: `isAvailable.map { !it }`. */
  function IsUnavailable(available: seq<bool>): (s: seq<bool>)
    ensures |s| == |available|
    ensures forall i :: 0 <= i < |s| ==> s[i] == !available[i]
  {
    seq(|available|, i requires 0 <= i < |available| => !available[i])
  }

  /** The `NetworkCallback` object: its `networks` set and what it has sent on the channel. */
  class NetworkCallback<N(==)> {
    var networks: set<N>
    var channel: seq<bool>

    constructor ()
      ensures networks == {} && channel == []
    {
      networks := {};
      channel := [];
    }

    /** `onAvailable(network)` */
    method OnAvailable(n: N)
      modifies this
      ensures networks == old(networks) + {n}
      ensures channel == old(channel) + [true]
    {
      networks := networks + {n};
      channel := channel + [true];
    }

    /** `onLost(network)` */
    method OnLost(n: N)
      modifies this
      ensures networks == old(networks) - {n}
      ensures channel == old(channel) + [networks != {}]
    {
      networks := networks - {n};
      channel := channel + [networks != {}];
    }
  }

  /**
   * One collection of `isAvailable`: register a fresh callback, send the current state, then let
   * the platform deliver `events` to the callback.
   */
  method Collect<N(==)>(manager: Option<Connectivity>, events: seq<NetworkEvent<N>>) returns (emitted: seq<bool>)
    ensures emitted == IsAvailable(manager, events)
  {
    if manager.None? {
      emitted := [false];
      return;
    }
    var callback := new NetworkCallback<N>();
    emitted := [IsCurrentlyConnected(manager.value)];
    var i := 0;
    while i < |events|
      invariant 0 <= i <= |events|
      invariant callback.networks == Final({}, events[..i])
      invariant callback.channel == Replay({}, events[..i])
    {
      ReplaySnoc({}, events[..i], events[i]);
      assert events[..i + 1] == events[..i] + [events[i]];
      match events[i] {
        case Available(n) => callback.OnAvailable(n);
        case Lost(n) => callback.OnLost(n);
      }
      i := i + 1;
    }
    assert events[..i] == events;
    emitted := emitted + callback.channel;
  }
}
