/** What `net::mac` and `IPNetwork::fromLinkDevice` share on Windows: the
    adapter records `GetAdaptersInfo` returns, the human-readable form
    `XX-XX-…` of an adapter's hardware address that both compare with the
    requested link name, and the first adapter whose form equals it. */
module Adapters {
  import opened Wrappers
  import opened Strings

  /** One `IP_ADAPTER_INFO` record: its hardware address
      (`Address[0 .. AddressLength]`) and the first entry of its IP address
      list, as the text of the address and of the mask. */
  datatype Adapter = Adapter(address: seq<byte>, ipAddress: string, ipMask: string)

  /** What the two calls to `GetAdaptersInfo` report. */
  datatype AdapterQuery =
    | SizeQueryUnexpected               // the size query did not answer ERROR_BUFFER_OVERFLOW
    | FetchFailed(code: nat)            // the fetch answered this code instead of NO_ERROR
    | Fetched(adapters: seq<Adapter>)   // the adapter list, in the order the system gives it

  /** The errors both lookups return. */
  datatype LinkError =
    | UnsupportedFamily(family: int)    // "Unsupported family type: <family>"
    | UnexpectedSizeResult              // "Calling GetAdaptersInfo returned unexpected result"
    | AdaptersInfoFailed(code: nat)     // "GetAdaptersInfo failed"
    | LinkDeviceNotFound                // "Cannot find the link device"
    | NetworkError(message: string)     // the error of `IPNetwork::create`, passed on

  /** stout's `Result<T>`: a value, none, or an error. */
  datatype LinkResult<+T> = Found(value: T) | NotPresent | Error(error: LinkError)

  /** The human-readable hardware address: each byte as two upper-case
      hexadecimal digits, joined by dashes. Defined by adding the last byte,
      the way the source's loop appends; `MacStringShape` states its shape. */
  function MacString(address: seq<byte>): (s: string)
    ensures s == [] <==> address == []
  {
    if |address| == 0 then []
    else if |address| == 1 then FormatHex2(address[0])
    else MacString(address[..|address| - 1]) + "-" + FormatHex2(address[|address| - 1])
  }

  /** Byte `k` of the address is the digit pair at `3k`, and a dash follows
      every pair but the last. */
  lemma {:induction false} MacStringShape(address: seq<byte>)
    ensures |address| == 0 ==> MacString(address) == []
    ensures |address| > 0 ==> |MacString(address)| == 3 * |address| - 1
    ensures forall k :: 0 <= k < |address| ==> MacString(address)[3 * k .. 3 * k + 2] == FormatHex2(address[k])
    ensures forall k :: 0 <= k < |address| - 1 ==> MacString(address)[3 * k + 2] == '-'
    decreases |address|
  {
    if |address| > 1 {
      var front := address[..|address| - 1];
      MacStringShape(front);
      var s := MacString(address);
      assert s == MacString(front) + "-" + FormatHex2(address[|address| - 1]);
      forall k | 0 <= k < |front|
        ensures s[3 * k .. 3 * k + 2] == FormatHex2(address[k])
      {
        assert s[3 * k .. 3 * k + 2] == MacString(front)[3 * k .. 3 * k + 2];
      }
      forall k | 0 <= k < |front| - 1
        ensures s[3 * k + 2] == '-'
      {
        assert s[3 * k + 2] == MacString(front)[3 * k + 2];
      }
    }
  }

  /** The loop that builds `macAddr` from an adapter's address bytes. */
  method FormatMac(address: seq<byte>) returns (macAddr: string)
    ensures macAddr == MacString(address)
  {
    macAddr := "";
    var i := 0;
    while i < |address|
      invariant 0 <= i <= |address|
      invariant macAddr == MacString(address[..i]) + (if 0 < i < |address| then "-" else "")
    {
      assert address[..i + 1][..i] == address[..i];
      macAddr := macAddr + FormatHex2(address[i]);
      if i != |address| - 1 {
        macAddr := macAddr + "-";
      }
      i := i + 1;
    }
    assert address[..i] == address;
  }

  /** Two adapters have the same human-readable address only if their
      address bytes are the same, so comparing strings compares addresses. */
  lemma MacStringInjective(a: seq<byte>, b: seq<byte>)
    requires MacString(a) == MacString(b)
    ensures a == b
  {
    MacStringShape(a);
    MacStringShape(b);
    var s := MacString(a);
    assert |a| == |b| by {
      if |a| == 0 || |b| == 0 {
        assert |s| == 0;
      }
    }
    forall k | 0 <= k < |a|
      ensures a[k] == b[k]
    {
      assert s[3 * k .. 3 * k + 2] == FormatHex2(a[k]) == FormatHex2(b[k]);
      FormatHex2Injective(a[k], b[k]);
    }
  }

  /** The adapter's human-readable address is the requested name. */
  predicate Matches(name: string, adapter: Adapter)
  {
    MacString(adapter.address) == name
  }

  /** The position of the first adapter whose address reads as `name`. */
  function FirstMatch(name: string, adapters: seq<Adapter>): (r: Option<nat>)
    ensures r.None? <==> forall i :: 0 <= i < |adapters| ==> !Matches(name, adapters[i])
    ensures r.Some? ==>
      && r.value < |adapters| && Matches(name, adapters[r.value])
      && forall j :: 0 <= j < r.value ==> !Matches(name, adapters[j])
  {
    if adapters == [] then None
    else if Matches(name, adapters[0]) then Some(0)
    else
      match FirstMatch(name, adapters[1..])
      case None => None
      case Some(k) => Some(k + 1)
  }

  /** Every adapter that matches `name` has the same address bytes. */
  lemma MatchesShareAddress(name: string, x: Adapter, y: Adapter)
    requires Matches(name, x) && Matches(name, y)
    ensures x.address == y.address
  {
    MacStringInjective(x.address, y.address);
  }
}
