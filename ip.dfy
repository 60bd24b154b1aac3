/** `IPNetwork::fromLinkDevice(name, family)` on Windows: the IP network of
    the link device whose human-readable hardware address is `name`.

    `IP::parse` and both forms of `IPNetwork::create` are not part of this
    model; they are parameters, so every statement below holds whatever
    they do. */
module WindowsIp {
  import opened Wrappers
  import opened Adapters

  /** The Windows values of the two address families the lookup accepts. */
  const AF_INET: int := 2
  const AF_INET6: int := 23

  /** The prefix length used when an adapter reports no mask: /32 for IPv4,
      /64 for IPv6. */
  function DefaultPrefix(family: int): (prefix: int)
    requires family == AF_INET || family == AF_INET6
    ensures family == AF_INET ==> prefix == 32
    ensures family == AF_INET6 ==> prefix == 64
  {
    if family == AF_INET then 32 else 64
  }

  /** An adapter's address (and mask, when it reports one) parse, so the
      `.get()` calls on `IP::parse` do not abort. */
  predicate Parses<IP>(adapter: Adapter, parse: string -> Option<IP>)
  {
    parse(adapter.ipAddress).Some? && (adapter.ipMask != "" ==> parse(adapter.ipMask).Some?)
  }

  /** `Try<IPNetwork>` returned as `Result<IPNetwork>`: an error keeps its
      message. */
  function FromTry<Network>(network: Result<Network, string>): (r: LinkResult<Network>)
    ensures network.Ok? <==> r.Found?
    ensures network.Ok? ==> r.value == network.value
    ensures network.Err? ==> r == Error(NetworkError(network.error))
  {
    match network
    case Ok(n) => Found(n)
    case Err(e) => Error(NetworkError(e))
  }

  /** `IPNetwork::fromLinkDevice(name, family)`. The first adapter whose
      address reads as `name` decides the answer: the network of its address
      and mask, or of its address and the family's default prefix when it
      reports no mask. */
  method FromLinkDevice<IP, Network>(
    name: string,
    family: int,
    query: AdapterQuery,
    parse: string -> Option<IP>,
    createWithMask: (IP, IP) -> Result<Network, string>,
    createWithPrefix: (IP, int) -> Result<Network, string>)
    returns (r: LinkResult<Network>)
    requires (family == AF_INET || family == AF_INET6) && query.Fetched? && FirstMatch(name, query.adapters).Some?
      ==> Parses(query.adapters[FirstMatch(name, query.adapters).value], parse)
    ensures family != AF_INET && family != AF_INET6 ==> r == Error(UnsupportedFamily(family))
    ensures (family == AF_INET || family == AF_INET6) && query.SizeQueryUnexpected? ==> r == Error(UnexpectedSizeResult)
    ensures (family == AF_INET || family == AF_INET6) && query.FetchFailed? ==> r == Error(AdaptersInfoFailed(query.code))
    ensures (family == AF_INET || family == AF_INET6) && query.Fetched? && FirstMatch(name, query.adapters).None?
      ==> r == Error(LinkDeviceNotFound)
    ensures (family == AF_INET || family == AF_INET6) && query.Fetched? && FirstMatch(name, query.adapters).Some? ==>
      var adapter := query.adapters[FirstMatch(name, query.adapters).value];
      var address := parse(adapter.ipAddress).value;
      && (adapter.ipMask != "" ==> r == FromTry(createWithMask(address, parse(adapter.ipMask).value)))
      && (adapter.ipMask == "" ==> r == FromTry(createWithPrefix(address, DefaultPrefix(family))))
    ensures !r.NotPresent?
  {
    if family != AF_INET && family != AF_INET6 {
      return Error(UnsupportedFamily(family));
    }
    match query
    case SizeQueryUnexpected =>
      return Error(UnexpectedSizeResult);
    case FetchFailed(code) =>
      return Error(AdaptersInfoFailed(code));
    case Fetched(adapters) =>
      r := ScanForNetwork(name, family, adapters, parse, createWithMask, createWithPrefix);
  }

  /** The loop of `IPNetwork::fromLinkDevice` over the adapter list: the
      first match returns from inside the loop. */
  method ScanForNetwork<IP, Network>(
    name: string,
    family: int,
    adapters: seq<Adapter>,
    parse: string -> Option<IP>,
    createWithMask: (IP, IP) -> Result<Network, string>,
    createWithPrefix: (IP, int) -> Result<Network, string>)
    returns (r: LinkResult<Network>)
    requires family == AF_INET || family == AF_INET6
    requires FirstMatch(name, adapters).Some? ==> Parses(adapters[FirstMatch(name, adapters).value], parse)
    ensures FirstMatch(name, adapters).None? ==> r == Error(LinkDeviceNotFound)
    ensures FirstMatch(name, adapters).Some? ==>
      var adapter := adapters[FirstMatch(name, adapters).value];
      var address := parse(adapter.ipAddress).value;
      && (adapter.ipMask != "" ==> r == FromTry(createWithMask(address, parse(adapter.ipMask).value)))
      && (adapter.ipMask == "" ==> r == FromTry(createWithPrefix(address, DefaultPrefix(family))))
    ensures !r.NotPresent?
  {
    var found := false;
    var k := 0;
    while k < |adapters|
      invariant 0 <= k <= |adapters|
      invariant !found
      invariant forall j :: 0 <= j < k ==> !Matches(name, adapters[j])
    {
      var macAddr := FormatMac(adapters[k].address);
      if macAddr == name {
        found := true;
        assert FirstMatch(name, adapters) == Some(k);
        var address := parse(adapters[k].ipAddress).value;
        if adapters[k].ipMask != "" {
          var netmask := parse(adapters[k].ipMask).value;
          var network := createWithMask(address, netmask);
          if network.Err? {
            return Error(NetworkError(network.error));
          }
          return Found(network.value);
        }
        var prefix := if family == AF_INET then 32 else 64;
        var network := createWithPrefix(address, prefix);
        if network.Err? {
          return Error(NetworkError(network.error));
        }
        return Found(network.value);
      }
      k := k + 1;
    }
    if !found {
      return Error(LinkDeviceNotFound);
    }
    // Every match returns inside the loop, so `found` is false here and
    // the source's closing `return None()` is never reached.
    assert false;
    return NotPresent;
  }

  /** Adapters after the first match do not change which adapter decides
      the answer. */
  lemma LaterAdaptersIgnored(name: string, adapters: seq<Adapter>, more: seq<Adapter>)
    requires FirstMatch(name, adapters).Some?
    ensures FirstMatch(name, adapters + more) == FirstMatch(name, adapters)
  {
    var i := FirstMatch(name, adapters).value;
    var all := adapters + more;
    assert all[i] == adapters[i];
    forall j | 0 <= j < i
      ensures !Matches(name, all[j])
    {
      assert all[j] == adapters[j];
    }
  }
}
