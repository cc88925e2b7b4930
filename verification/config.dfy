/** A model of the network selection of nano/lib/config.hpp: the three
    networks `nano_networks`, the process-wide active network, and
    `network_constants`, the fixed table of work threshold, ports and request
    interval that belongs to each network.

    The static `active_network` becomes the field of an explicit
    `ActiveNetwork` object, and whether the build runs under a sanitizer is a
    parameter of the constructor. */
module NetworkConfig {

  type u16 = x: int | 0 <= x < 0x1_0000
  /** `unsigned`, 32 bits wide on the platforms the node is built for. */
  type u32 = x: int | 0 <= x < 0x1_0000_0000
  type u64 = x: int | 0 <= x < 0x1_0000_0000_0000_0000

  /** `nano_networks`: networks with different genesis blocks and parameters. */
  datatype Network = TestNetwork | BetaNetwork | LiveNetwork

  /** The older `rai_*` names denote the same three networks. */
  const RaiTestNetwork: Network := TestNetwork
  const RaiBetaNetwork: Network := BetaNetwork
  const RaiLiveNetwork: Network := LiveNetwork

  /** The integer behind each enumerator, which callers compare. */
  function Ordinal(n: Network): (r: nat)
    ensures r < 3
    ensures n == TestNetwork <==> r == 0
    ensures n == LiveNetwork <==> r == 2
  {
    match n
    case TestNetwork => 0
    case BetaNetwork => 1
    case LiveNetwork => 2
  }

  /** Distinct networks have distinct integers, and the integers follow the
      order test, beta, live. */
  lemma OrdinalsDistinct(n: Network, m: Network)
    ensures Ordinal(n) == Ordinal(m) <==> n == m
    ensures n == TestNetwork && m != TestNetwork ==> Ordinal(n) < Ordinal(m)
    ensures m == LiveNetwork && n != LiveNetwork ==> Ordinal(n) < Ordinal(m)
  {
  }

  /** Proof-of-work thresholds.  The live network asks for about five
      seconds of work; beta for 16 times less; test for very little. */
  const PublishFullThreshold: u64 := 0xffff_ffc0_0000_0000
  const PublishBetaThreshold: u64 := 0xffff_fc00_0000_0000
  const PublishTestThreshold: u64 := 0xff00_0000_0000_0000

  /** A higher threshold is more work: test < beta < full, and the beta
      threshold leaves 16 times as many work values above it as the full one. */
  lemma ThresholdsOrdered()
    ensures PublishTestThreshold < PublishBetaThreshold < PublishFullThreshold
    ensures 0x1_0000_0000_0000_0000 - PublishBetaThreshold == 16 * (0x1_0000_0000_0000_0000 - PublishFullThreshold)
  {
  }

  /** `nano::error`: no error, or an error carrying its message. */
  datatype Outcome = Success | Failure(message: string)

  const InvalidNetworkMessage: string := "Invalid network. Valid values are live, beta and test."

  /** The network a command-line name stands for: "live", "beta" and "test"
      and nothing else. */
  function ParseNetwork(name: string): (r: Option)
    ensures r == Some(LiveNetwork) <==> name == "live"
    ensures r == Some(BetaNetwork) <==> name == "beta"
    ensures r == Some(TestNetwork) <==> name == "test"
    ensures r == None <==> name !in {"live", "beta", "test"}
  {
    if name == "live" then Some(LiveNetwork)
    else if name == "beta" then Some(BetaNetwork)
    else if name == "test" then Some(TestNetwork)
    else None
  }

  datatype Option = None | Some(value: Network)

  /** The process-wide active network: the compile-time choice, unless a
      command-line flag overrides it. */
  class ActiveNetwork {
    var active: Network

    constructor (compiled: Network)
      ensures active == compiled
    {
      active := compiled;
    }

    /** `set_active_network (nano_networks)`. */
    method SetActiveNetwork(network: Network)
      modifies this
      ensures active == network
    {
      active := network;
    }

    /** `set_active_network (std::string)`: a valid name selects its network
        and reports no error; any other name reports the error and leaves the
        active network as it was. */
    method SetActiveNetworkByName(name: string) returns (err: Outcome)
      modifies this
      ensures ParseNetwork(name).Some? ==> err == Success && active == ParseNetwork(name).value
      ensures ParseNetwork(name).None? ==> err == Failure(InvalidNetworkMessage) && active == old(active)
    {
      err := Success;
      if name == "live" {
        active := LiveNetwork;
      } else if name == "beta" {
        active := BetaNetwork;
      } else if name == "test" {
        active := TestNetwork;
      } else {
        err := Failure(InvalidNetworkMessage);
      }
    }
  }

  /** `network_constants`: the parameters of one network, which need not be
      the active one. */
  class NetworkConstants {
    var currentNetwork: Network
    var publishThreshold: u64
    var principalWeightFactor: u32
    var defaultNodePort: u16
    var defaultRpcPort: u16
    var defaultIpcPort: u16
    var defaultWebsocketPort: u16
    var requestIntervalMs: u32

    /** The table of parameters by network.  The request interval on the
        test network is longer in a sanitizer build, which runs slower. */
    predicate Configured(isSanitizerBuild: bool)
      reads this
    {
      principalWeightFactor == 1000 &&
      (currentNetwork == LiveNetwork ==>
        publishThreshold == PublishFullThreshold && requestIntervalMs == 500 &&
        defaultNodePort == 2324 && defaultRpcPort == 2325 &&
        defaultIpcPort == 7077 && defaultWebsocketPort == 7078) &&
      (currentNetwork == BetaNetwork ==>
        publishThreshold == PublishBetaThreshold && requestIntervalMs == 500 &&
        defaultNodePort == 54000 && defaultRpcPort == 55000 &&
        defaultIpcPort == 56000 && defaultWebsocketPort == 57000) &&
      (currentNetwork == TestNetwork ==>
        publishThreshold == PublishTestThreshold &&
        requestIntervalMs == (if isSanitizerBuild then 100 else 20) &&
        defaultNodePort == 44000 && defaultRpcPort == 45000 &&
        defaultIpcPort == 46000 && defaultWebsocketPort == 47000)
    }

    /** `network_constants (nano_networks)`: the parameters of `network`,
        which `network ()` reports back. */
    constructor (network: Network, isSanitizerBuild: bool)
      ensures Network() == network && Configured(isSanitizerBuild)
    {
      currentNetwork := network;
      new;
      publishThreshold := if IsTestNetwork() then PublishTestThreshold
                          else if IsBetaNetwork() then PublishBetaThreshold
                          else PublishFullThreshold;
      principalWeightFactor := 1000;
      defaultNodePort := if IsLiveNetwork() then 2324 else if IsBetaNetwork() then 54000 else 44000;
      defaultRpcPort := if IsLiveNetwork() then 2325 else if IsBetaNetwork() then 55000 else 45000;
      defaultIpcPort := if IsLiveNetwork() then 7077 else if IsBetaNetwork() then 56000 else 46000;
      defaultWebsocketPort := if IsLiveNetwork() then 7078 else if IsBetaNetwork() then 57000 else 47000;
      requestIntervalMs := if IsTestNetwork() then (if isSanitizerBuild then 100 else 20) else 500;
    }

    /** `network_constants ()`: the parameters of the active network. */
    static method Default(selection: ActiveNetwork, isSanitizerBuild: bool) returns (c: NetworkConstants)
      ensures fresh(c)
      ensures c.Network() == selection.active && c.Configured(isSanitizerBuild)
    {
      c := new NetworkConstants(selection.active, isSanitizerBuild);
    }

    /** `network ()`: the network these parameters belong to. */
    function Network(): Network
      reads this
    {
      currentNetwork
    }

    /** `is_live_network ()`. */
    predicate IsLiveNetwork()
      reads this
    {
      currentNetwork == LiveNetwork
    }

    /** `is_beta_network ()`. */
    predicate IsBetaNetwork()
      reads this
    {
      currentNetwork == BetaNetwork
    }

    /** `is_test_network ()`. */
    predicate IsTestNetwork()
      reads this
    {
      currentNetwork == TestNetwork
    }

    /** `get_current_network_as_string ()`: the name under which the network
        is selected on the command line. */
    function GetCurrentNetworkAsString(): (s: string)
      reads this
      ensures ParseNetwork(s) == Some(currentNetwork)
    {
      if IsLiveNetwork() then "live" else if IsBetaNetwork() then "beta" else "test"
    }
  }

  /** Whatever the network, exactly one of the three tests holds. */
  lemma ExactlyOneNetwork(c: NetworkConstants)
    ensures c.IsLiveNetwork() || c.IsBetaNetwork() || c.IsTestNetwork()
    ensures !(c.IsLiveNetwork() && c.IsBetaNetwork())
    ensures !(c.IsLiveNetwork() && c.IsTestNetwork())
    ensures !(c.IsBetaNetwork() && c.IsTestNetwork())
  {
  }

  /** Names and networks correspond one to one: the name of a network parses
      back to it, and a name that parses to a network is that network's name. */
  lemma NameRoundTrip(c: NetworkConstants, name: string)
    ensures ParseNetwork(name) == Some(c.currentNetwork) <==> c.GetCurrentNetworkAsString() == name
  {
  }

  /** Selecting the active network by the name of a parameter set's network
      succeeds and makes that network active. */
  method SelectByName(selection: ActiveNetwork, c: NetworkConstants) returns (err: Outcome)
    modifies selection
    ensures err == Success && selection.active == c.currentNetwork
  {
    err := selection.SetActiveNetworkByName(c.GetCurrentNetworkAsString());
  }

  /** More work is asked the closer a network is to live: the threshold is
      monotone in the network's integer, and is the full one exactly on live. */
  lemma ThresholdFollowsNetwork(c: NetworkConstants, d: NetworkConstants, s: bool, t: bool)
    requires c.Configured(s) && d.Configured(t)
    ensures Ordinal(c.currentNetwork) < Ordinal(d.currentNetwork) ==> c.publishThreshold < d.publishThreshold
    ensures c.IsLiveNetwork() <==> c.publishThreshold == PublishFullThreshold
  {
  }

  /** Each network listens on four different ports, and no two networks use
      the same port for anything. */
  lemma PortsDisjoint(c: NetworkConstants, d: NetworkConstants, s: bool, t: bool)
    requires c.Configured(s) && d.Configured(t)
    ensures |{c.defaultNodePort, c.defaultRpcPort, c.defaultIpcPort, c.defaultWebsocketPort}| == 4
    ensures c.currentNetwork != d.currentNetwork ==>
      {c.defaultNodePort, c.defaultRpcPort, c.defaultIpcPort, c.defaultWebsocketPort} !!
      {d.defaultNodePort, d.defaultRpcPort, d.defaultIpcPort, d.defaultWebsocketPort}
  {
  }
}
