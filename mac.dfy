/** `net::mac(name)` on Windows: the hardware address of the link device
    whose human-readable address (`XX-XX-…`) is `name`.

    The result is an error when the adapter list cannot be read or no
    adapter matches, none when the matching adapter's address is all zeros,
    and the address otherwise. */
module WindowsMac {
  import opened Wrappers
  import opened Strings
  import opened Adapters

  /** `net::MAC`: six address bytes. */
  datatype MacAddress = MacAddress(bytes: seq<byte>)

  /** The byte two hexadecimal digits spell. */
  function PairValue(high: char, low: char): Option<byte>
  {
    if HexValue(high).Some? && HexValue(low).Some?
    then Some((HexValue(high).value * 16 + HexValue(low).value) as byte)
    else None
  }

  /** `MAC::parse`, for the text it is given here: six pairs of hexadecimal
      digits separated by colons. */
  function ParseMac(s: string): (r: Option<MacAddress>)
    ensures r.Some? ==> |s| == 17 && |r.value.bytes| == 6
  {
    if |s| == 17
       && (forall k :: 0 <= k < 5 ==> s[3 * k + 2] == ':')
       && (forall k :: 0 <= k < 6 ==> PairValue(s[3 * k], s[3 * k + 1]).Some?)
    then Some(MacAddress(seq(6, k requires 0 <= k < 6 => PairValue(s[3 * k], s[3 * k + 1]).value)))
    else None
  }

  /** The text `net::mac` hands to `MAC::parse`: the name with its dashes
      turned into colons. */
  function ColonForm(name: string): string
  {
    ReplaceChar(name, '-', ':')
  }

  /** Parsing the colon form of a six-byte address gives the address back,
      and no other length parses. */
  lemma {:induction false} ParseMacRoundTrip(address: seq<byte>)
    ensures ParseMac(ColonForm(MacString(address))).Some? <==> |address| == 6
    ensures |address| == 6 ==> ParseMac(ColonForm(MacString(address))) == Some(MacAddress(address))
  {
    MacStringShape(address);
    var m := MacString(address);
    var t := ColonForm(m);
    if |address| == 6 {
      forall k | 0 <= k < 5
        ensures t[3 * k + 2] == ':'
      {
        assert m[3 * k + 2] == '-';
      }
      forall k | 0 <= k < 6
        ensures PairValue(t[3 * k], t[3 * k + 1]) == Some(address[k])
      {
        assert m[3 * k .. 3 * k + 2] == FormatHex2(address[k]);
        assert m[3 * k] == FormatHex2(address[k])[0] && m[3 * k + 1] == FormatHex2(address[k])[1];
        FormatHex2RoundTrip(address[k]);
      }
      var parsed := ParseMac(t);
      assert parsed.Some?;
      assert parsed.value.bytes == address;
    }
  }

  /** `stringify(mac) == "00:00:00:00:00:00"`: every byte is zero. */
  predicate IsZero(mac: MacAddress)
  {
    forall i :: 0 <= i < |mac.bytes| ==> mac.bytes[i] == 0
  }

  /** What the lookup answers for a readable adapter list: the first
      adapter whose address reads as `name` decides — none when that address
      is all zeros, the address otherwise — and with no such adapter the
      device is missing. */
  function ExpectedMac(name: string, adapters: seq<Adapter>): LinkResult<MacAddress>
  {
    match FirstMatch(name, adapters)
    case None => Error(LinkDeviceNotFound)
    case Some(i) =>
      var mac := MacAddress(adapters[i].address);
      if IsZero(mac) then NotPresent else Found(mac)
  }

  /** Once an adapter matches, the name parses (the caller's promise) and
      parses to that adapter's address. */
  lemma ParseMatchingName(name: string, adapters: seq<Adapter>, k: nat)
    requires k < |adapters| && Matches(name, adapters[k])
    requires FirstMatch(name, adapters).Some? ==> ParseMac(ColonForm(name)).Some?
    ensures ParseMac(ColonForm(name)) == Some(MacAddress(adapters[k].address))
  {
    ParseMacRoundTrip(adapters[k].address);
  }

  /** Once adapter `k` matches, the first match is at or before it and has
      the same address. */
  lemma MatchAt(name: string, adapters: seq<Adapter>, k: nat)
    requires k < |adapters| && Matches(name, adapters[k])
    ensures FirstMatch(name, adapters).Some? && FirstMatch(name, adapters).value <= k
    ensures adapters[FirstMatch(name, adapters).value].address == adapters[k].address
  {
    MatchesShareAddress(name, adapters[FirstMatch(name, adapters).value], adapters[k]);
  }

  /** `net::mac(name)`. The source calls `.get()` on the parse of the name
      once some adapter matches; the requires states when that does not
      abort. */
  method Mac(name: string, query: AdapterQuery) returns (r: LinkResult<MacAddress>)
    requires query.Fetched? && FirstMatch(name, query.adapters).Some? ==> ParseMac(ColonForm(name)).Some?
    ensures query.SizeQueryUnexpected? ==> r == Error(UnexpectedSizeResult)
    ensures query.FetchFailed? ==> r == Error(AdaptersInfoFailed(query.code))
    ensures query.Fetched? ==> r == ExpectedMac(name, query.adapters)
  {
    match query
    case SizeQueryUnexpected =>
      return Error(UnexpectedSizeResult);
    case FetchFailed(code) =>
      return Error(AdaptersInfoFailed(code));
    case Fetched(adapters) =>
      r := ScanAdapters(name, adapters);
  }

  /** The loop of `net::mac` over the adapter list: a match whose address is
      all zeros sets `found` and is skipped, the first other match is the
      answer. */
  method ScanAdapters(name: string, adapters: seq<Adapter>) returns (r: LinkResult<MacAddress>)
    requires FirstMatch(name, adapters).Some? ==> ParseMac(ColonForm(name)).Some?
    ensures r == ExpectedMac(name, adapters)
  {
    var found := false;
    var k := 0;
    while k < |adapters|
      invariant 0 <= k <= |adapters|
      invariant found <==> FirstMatch(name, adapters).Some? && FirstMatch(name, adapters).value < k
      invariant found ==> IsZero(MacAddress(adapters[FirstMatch(name, adapters).value].address))
    {
      var macAddr := FormatMac(adapters[k].address);
      if macAddr == name {
        found := true;
        ParseMatchingName(name, adapters, k);
        MatchAt(name, adapters, k);
        var mac := ParseMac(ColonForm(name)).value;
        if IsZero(mac) {
          k := k + 1;
          continue;
        }
        return Found(mac);
      }
      k := k + 1;
    }
    if !found {
      return Error(LinkDeviceNotFound);
    }
    return NotPresent;
  }

  /** The lookup answers none exactly when some adapter matches and the
      matching address is all zeros: the `found` flag was set, but every
      match was skipped. */
  lemma NotPresentWhenOnlyZeroMatches(name: string, adapters: seq<Adapter>)
    ensures ExpectedMac(name, adapters) == NotPresent <==>
      && (exists i :: 0 <= i < |adapters| && Matches(name, adapters[i]))
      && (forall i :: 0 <= i < |adapters| && Matches(name, adapters[i]) ==> IsZero(MacAddress(adapters[i].address)))
  {
    var first := FirstMatch(name, adapters);
    if first.Some? {
      forall i | 0 <= i < |adapters| && Matches(name, adapters[i])
        ensures adapters[i].address == adapters[first.value].address
      {
        MatchesShareAddress(name, adapters[i], adapters[first.value]);
      }
    }
  }

  /** A found address is the address of a matching adapter, it is not all
      zeros, and it is six bytes long whenever the name parses. */
  lemma FoundIsMatchingNonZero(name: string, adapters: seq<Adapter>)
    requires ExpectedMac(name, adapters).Found?
    ensures var mac := ExpectedMac(name, adapters).value;
      && !IsZero(mac)
      && (exists i :: 0 <= i < |adapters| && Matches(name, adapters[i]) && adapters[i].address == mac.bytes)
      && (ParseMac(ColonForm(name)).Some? ==> ParseMac(ColonForm(name)).value == mac)
  {
    var i := FirstMatch(name, adapters).value;
    ParseMacRoundTrip(adapters[i].address);
  }
}
