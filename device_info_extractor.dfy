/**
 * Request fingerprinting from HTTP headers (the static helper `DeviceInfoExtractor`):
 * client IP, last-hop IP, user agent, proxy detection, device name and MAC formatting.
 */
module DeviceInfoExtractor {
  import opened Wrappers
  import opened Text

  /**
   * What the rules read from a request: the FIRST value of each header that has at
   * least one value, the names of all headers present (a header may be present with
   * no value), and the connection's remote address already rendered as text.
   */
  datatype HttpContext = HttpContext(
    headers: map<string, string>,
    headerNames: set<string>,
    remoteIpAddress: Option<string>)
  {
    /** Every header that has a first value is present. */
    predicate WellFormed() {
      headers.Keys <= headerNames
    }

    /** `Request.Headers[name].FirstOrDefault()`. */
    function FirstHeader(name: string): Option<string> {
      if name in headers then Some(headers[name]) else None
    }
  }

  const ForwardedForHeader: string := "X-Forwarded-For"
  const RealIpHeader: string := "X-Real-IP"
  const ViaHeader: string := "Via"
  const UserAgentHeader: string := "User-Agent"
  const DeviceNameHeader: string := "X-Device-Name"
  const Unknown: string := "unknown"

  /** A header value that is neither missing nor empty (`!string.IsNullOrEmpty`). */
  predicate HasText(v: Option<string>) {
    v.Some? && v.value != ""
  }

  /** The proxy chain: the non-empty comma-separated entries of `X-Forwarded-For`, untrimmed. */
  function ForwardedHops(ctx: HttpContext): (hops: seq<string>)
    ensures forall i :: 0 <= i < |hops| ==> hops[i] != "" && ',' !in hops[i]
  {
    var forwardedFor := ctx.FirstHeader(ForwardedForHeader);
    if HasText(forwardedFor) then SplitNonEmpty(forwardedFor.value, ',') else []
  }

  /** The chain is empty exactly when the header is missing or holds nothing but commas. */
  lemma ForwardedHopsEmpty(ctx: HttpContext)
    ensures ForwardedHops(ctx) == []
        <==> ForwardedForHeader !in ctx.headers
             || AllSep(ctx.headers[ForwardedForHeader], ',')
  {
    if ForwardedForHeader in ctx.headers {
      SplitNonEmptyNone(ctx.headers[ForwardedForHeader], ',');
    }
  }

  /** The leading entry of `X-Forwarded-For`, when non-empty, is the first hop, and the client IP is that entry trimmed. */
  lemma FirstHopIsLeadingEntry(ctx: HttpContext, first: string, rest: string)
    requires ctx.FirstHeader(ForwardedForHeader) == Some(first + [','] + rest)
    requires first != [] && ',' !in first
    ensures ForwardedHops(ctx) == [first] + SplitNonEmpty(rest, ',')
    ensures GetClientIpAddress(ctx) == Trim(first)
  {
    SplitNonEmptyCons(first, rest, ',');
  }

  /**
   * The trailing entry of `X-Forwarded-For`, when non-empty, is the last hop; with a
   * non-empty entry before it the chain has two hops or more, and the real IP is that
   * trailing entry trimmed.
   */
  lemma LastHopIsTrailingEntry(ctx: HttpContext, init: string, last: string)
    requires ctx.FirstHeader(ForwardedForHeader) == Some(init + [','] + last)
    requires last != [] && ',' !in last
    requires !AllSep(init, ',')
    ensures ForwardedHops(ctx) == SplitNonEmpty(init, ',') + [last]
    ensures |ForwardedHops(ctx)| >= 2
    ensures GetRealIpAddress(ctx) == Trim(last)
  {
    SplitNonEmptySnoc(init, last, ',');
    SplitNonEmptyNone(init, ',');
  }

  /**
   * `GetClientIpAddress`: the first proxy hop, trimmed; failing that a non-empty
   * `X-Real-IP`; failing that the remote address, or "unknown".
   */
  function GetClientIpAddress(ctx: HttpContext): (ip: string)
    ensures ForwardedHops(ctx) != [] ==> ip == Trim(ForwardedHops(ctx)[0]) && ',' !in ip
    ensures ForwardedHops(ctx) == [] && HasText(ctx.FirstHeader(RealIpHeader))
            ==> ip == ctx.headers[RealIpHeader]
    ensures ForwardedHops(ctx) == [] && !HasText(ctx.FirstHeader(RealIpHeader))
            ==> ip == ctx.remoteIpAddress.GetOr(Unknown)
  {
    var forwardedFor := ctx.FirstHeader(ForwardedForHeader);
    var ips := if HasText(forwardedFor) then SplitNonEmpty(forwardedFor.value, ',') else [];
    if HasText(forwardedFor) && |ips| > 0 then
      TrimExcludes(ips[0], ',');
      Trim(ips[0])
    else
      var realIp := ctx.FirstHeader(RealIpHeader);
      if HasText(realIp) then realIp.value
      else ctx.remoteIpAddress.GetOr(Unknown)
  }

  /** `GetUserAgent`: the first `User-Agent` value, "unknown" when there is none (an empty value is kept). */
  function GetUserAgent(ctx: HttpContext): (ua: string)
    ensures UserAgentHeader in ctx.headers ==> ua == ctx.headers[UserAgentHeader]
    ensures UserAgentHeader !in ctx.headers ==> ua == Unknown
  {
    ctx.FirstHeader(UserAgentHeader).GetOr(Unknown)
  }

  /** The headers whose presence marks a request as relayed by a proxy or VPN. */
  const ProxyHeaders: set<string> := {ForwardedForHeader, RealIpHeader, ViaHeader}

  /** `IsVpnConnection`: one of the proxy headers is present, whatever its value. */
  predicate IsVpnConnection(ctx: HttpContext): (vpn: bool)
    ensures vpn <==> exists h :: h in ProxyHeaders && h in ctx.headerNames
  {
    var hasForwardedFor := ForwardedForHeader in ctx.headerNames;
    var hasRealIp := RealIpHeader in ctx.headerNames;
    var hasVia := ViaHeader in ctx.headerNames;
    assert hasForwardedFor ==> ForwardedForHeader in ProxyHeaders;
    assert hasRealIp ==> RealIpHeader in ProxyHeaders;
    assert hasVia ==> ViaHeader in ProxyHeaders;
    hasForwardedFor || hasRealIp || hasVia
  }

  /** Proxy detection looks at header names only: a proxy header with an empty value still counts. */
  lemma VpnDependsOnNamesOnly(ctx: HttpContext, other: HttpContext)
    requires ctx.headerNames == other.headerNames
    ensures IsVpnConnection(ctx) == IsVpnConnection(other)
  {
  }

  /**
   * An empty `X-Forwarded-For` marks the request as proxied, yet the client IP then
   * falls through to the other sources.
   */
  lemma EmptyForwardedForIsProxiedButIgnored(ctx: HttpContext)
    requires ctx.FirstHeader(ForwardedForHeader) == Some("") && ctx.WellFormed()
    ensures IsVpnConnection(ctx)
    ensures ForwardedHops(ctx) == []
    ensures GetClientIpAddress(ctx) == if HasText(ctx.FirstHeader(RealIpHeader)) then ctx.headers[RealIpHeader]
                                       else ctx.remoteIpAddress.GetOr(Unknown)
  {
  }

  /** A request that carries no proxy header is attributed to its remote address by both IP rules. */
  lemma DirectConnectionUsesRemoteAddress(ctx: HttpContext)
    requires ctx.WellFormed() && !IsVpnConnection(ctx)
    ensures GetClientIpAddress(ctx) == ctx.remoteIpAddress.GetOr(Unknown)
    ensures GetRealIpAddress(ctx) == ctx.remoteIpAddress.GetOr(Unknown)
  {
    assert ForwardedForHeader !in ctx.headers && RealIpHeader !in ctx.headers;
  }

  /** When the client IP was taken from a header rather than the connection, the request counts as proxied. */
  lemma HeaderDerivedIpMeansProxied(ctx: HttpContext)
    requires ctx.WellFormed()
    requires ForwardedHops(ctx) != [] || HasText(ctx.FirstHeader(RealIpHeader))
    ensures IsVpnConnection(ctx)
  {
    if ForwardedHops(ctx) != [] {
      assert ForwardedForHeader in ctx.headers;
    } else {
      assert RealIpHeader in ctx.headers;
    }
  }

  /**
   * `GetRealIpAddress`: the LAST proxy hop, trimmed, when the chain has at least two
   * hops; otherwise exactly the client IP.
   */
  function GetRealIpAddress(ctx: HttpContext): (ip: string)
    ensures |ForwardedHops(ctx)| > 1 ==> ip == Trim(ForwardedHops(ctx)[|ForwardedHops(ctx)| - 1]) && ',' !in ip
    ensures |ForwardedHops(ctx)| <= 1 ==> ip == GetClientIpAddress(ctx)
  {
    var forwardedFor := ctx.FirstHeader(ForwardedForHeader);
    var ips := if HasText(forwardedFor) then SplitNonEmpty(forwardedFor.value, ',') else [];
    if HasText(forwardedFor) && |ips| > 1 then
      TrimExcludes(ips[|ips| - 1], ',');
      Trim(ips[|ips| - 1])
    else
      GetClientIpAddress(ctx)
  }

  /** One user-agent rule: the label given when any of the patterns occurs. */
  datatype NameRule = NameRule(patterns: seq<string>, deviceName: string)

  /** The device-name rules in the order they are tried. */
  const DeviceNameRules: seq<NameRule> := [
    NameRule(["Windows"], "Windows Device"),
    NameRule(["Mac"], "Mac Device"),
    NameRule(["Linux"], "Linux Device"),
    NameRule(["Android"], "Android Device"),
    NameRule(["iPhone", "iPad"], "iOS Device")
  ]

  const UnknownDevice: string := "Unknown Device"

  /** Some pattern of the list occurs in `ua`. */
  predicate AnyOccurs(ua: string, patterns: seq<string>) {
    patterns != [] && (Contains(ua, patterns[0]) || AnyOccurs(ua, patterns[1..]))
  }

  lemma SinglePattern(ua: string, p: string)
    ensures AnyOccurs(ua, [p]) == Contains(ua, p)
  {
    assert [p][1..] == [];
  }

  lemma TwoPatterns(ua: string, p: string, q: string)
    ensures AnyOccurs(ua, [p, q]) == (Contains(ua, p) || Contains(ua, q))
  {
    assert [p, q][1..] == [q];
    SinglePattern(ua, q);
  }

  /** `rule` applies to `ua`. */
  predicate Matches(ua: string, rule: NameRule) {
    AnyOccurs(ua, rule.patterns)
  }

  /** The label of the first rule that matches `ua`, or "Unknown Device": the reference classification. */
  function Classify(ua: string, rules: seq<NameRule>): (name: string)
    ensures (forall k :: 0 <= k < |rules| ==> !Matches(ua, rules[k])) ==> name == UnknownDevice
    ensures forall k :: 0 <= k < |rules| && Matches(ua, rules[k])
                        && (forall j :: 0 <= j < k ==> !Matches(ua, rules[j]))
                        ==> name == rules[k].deviceName
  {
    if rules == [] then UnknownDevice
    else if Matches(ua, rules[0]) then rules[0].deviceName
    else
      assert forall k :: 1 <= k < |rules| ==> rules[k] == rules[1..][k - 1];
      Classify(ua, rules[1..])
  }

  /**
   * `GetDeviceName`: a non-empty `X-Device-Name` as given, otherwise the label of the
   * first platform named in the user agent.
   */
  function GetDeviceName(ctx: HttpContext): (name: string)
    ensures HasText(ctx.FirstHeader(DeviceNameHeader)) ==> name == ctx.headers[DeviceNameHeader]
    ensures !HasText(ctx.FirstHeader(DeviceNameHeader)) ==> name == Classify(GetUserAgent(ctx), DeviceNameRules)
  {
    var deviceName := ctx.FirstHeader(DeviceNameHeader);
    if HasText(deviceName) then deviceName.value
    else
      var userAgent := GetUserAgent(ctx);
      var r := if Contains(userAgent, "Windows") then "Windows Device"
        else if Contains(userAgent, "Mac") then "Mac Device"
        else if Contains(userAgent, "Linux") then "Linux Device"
        else if Contains(userAgent, "Android") then "Android Device"
        else if Contains(userAgent, "iPhone") || Contains(userAgent, "iPad") then "iOS Device"
        else UnknownDevice;
      ClassifyDeviceNameRules(userAgent);
      r
  }

  /** The five rules, spelled out as the chain of tests `GetDeviceName` makes. */
  lemma ClassifyDeviceNameRules(ua: string)
    ensures Classify(ua, DeviceNameRules) ==
      if Contains(ua, "Windows") then "Windows Device"
      else if Contains(ua, "Mac") then "Mac Device"
      else if Contains(ua, "Linux") then "Linux Device"
      else if Contains(ua, "Android") then "Android Device"
      else if Contains(ua, "iPhone") || Contains(ua, "iPad") then "iOS Device"
      else UnknownDevice
  {
    var rules := DeviceNameRules;
    var rest := rules;
    SinglePattern(ua, "Windows");
    assert Matches(ua, rest[0]) <==> Contains(ua, "Windows");
    assert Classify(ua, rest) == if Contains(ua, "Windows") then "Windows Device" else Classify(ua, rest[1..]);
    rest := rest[1..];
    SinglePattern(ua, "Mac");
    assert Matches(ua, rest[0]) <==> Contains(ua, "Mac");
    assert Classify(ua, rest) == if Contains(ua, "Mac") then "Mac Device" else Classify(ua, rest[1..]);
    rest := rest[1..];
    SinglePattern(ua, "Linux");
    assert Matches(ua, rest[0]) <==> Contains(ua, "Linux");
    assert Classify(ua, rest) == if Contains(ua, "Linux") then "Linux Device" else Classify(ua, rest[1..]);
    rest := rest[1..];
    SinglePattern(ua, "Android");
    assert Matches(ua, rest[0]) <==> Contains(ua, "Android");
    assert Classify(ua, rest) == if Contains(ua, "Android") then "Android Device" else Classify(ua, rest[1..]);
    rest := rest[1..];
    assert rest == [NameRule(["iPhone", "iPad"], "iOS Device")];
    TwoPatterns(ua, "iPhone", "iPad");
    assert Matches(ua, rest[0]) <==> Contains(ua, "iPhone") || Contains(ua, "iPad");
    assert Classify(ua, rest[1..]) == UnknownDevice;
  }

  /** The result is the custom header or one of the six fixed labels. */
  lemma DeviceNameIsKnownLabel(ctx: HttpContext)
    requires !HasText(ctx.FirstHeader(DeviceNameHeader))
    ensures GetDeviceName(ctx) in {"Windows Device", "Mac Device", "Linux Device",
                                   "Android Device", "iOS Device", UnknownDevice}
  {
    ClassifyDeviceNameRules(GetUserAgent(ctx));
  }

  /**
   * Since "Mac" is checked before "iPhone", a user agent naming both, as Safari on an
   * iPhone does ("... like Mac OS X"), is named "Mac Device" unless it also names Windows.
   */
  lemma MacShadowsIPhone(ctx: HttpContext)
    requires !HasText(ctx.FirstHeader(DeviceNameHeader))
    requires Contains(GetUserAgent(ctx), "iPhone") && Contains(GetUserAgent(ctx), "Mac")
    requires !Contains(GetUserAgent(ctx), "Windows")
    ensures GetDeviceName(ctx) == "Mac Device"
  {
    ClassifyDeviceNameRules(GetUserAgent(ctx));
  }

  const MacDigits: nat := 12

  /**
   * `FormatMacAddress`: a 12-character address becomes six two-character groups
   * joined by ':' (17 characters, ':' at every third position, and removing those
   * positions gives the address back); any other input is returned unchanged.
   */
  function FormatMacAddress(mac: string): (r: string)
    ensures |mac| != MacDigits ==> r == mac
    ensures |mac| == MacDigits ==> |r| == 17
    ensures |mac| == MacDigits ==> forall i :: 0 <= i < |r| && i % 3 == 2 ==> r[i] == ':'
    ensures |mac| == MacDigits ==> Ungroup(r) == mac
  {
    if mac == "" || |mac| != MacDigits then mac
    else
      var groups := Pairs(mac);
      JoinPairs(groups, ':');
      ConcatPairs(mac);
      Join(groups, ':')
  }

  /** An address already formatted is left as it is. */
  lemma FormatMacAddressIdempotent(mac: string)
    ensures FormatMacAddress(FormatMacAddress(mac)) == FormatMacAddress(mac)
  {
  }
}
