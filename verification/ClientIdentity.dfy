/** How the server decides which client a request is charged to: the connection address,
    or, behind trusted proxies, an address taken from the forwarding headers.

    Parsing of addresses and networks belongs to Python's `ipaddress` module and is a
    parameter; what it means for a network to contain an address is spelled out. */
module ClientIdentity {
  import opened Text

  datatype Address = Address(version: nat, value: nat)

  /** A network as written, host bits included; `hostBits` is the address width minus the
      prefix length. */
  datatype Network = Network(version: nat, value: nat, hostBits: nat)

  datatype Setup = Setup(
    proxies: seq<string>,
    parseAddress: string -> Option<Address>,
    parseNetwork: string -> Option<Network>)

  datatype Request = Request(connection: Option<string>, forwardedFor: Option<string>, realIp: Option<string>)

  // ---------------------------------------------------------------- networks

  /** The value with its host bits cleared. */
  function Masked(value: nat, hostBits: nat): int {
    value - value % Pow2(hostBits)
  }

  predicate Contains(net: Network, a: Address) {
    net.version == a.version && Masked(a.value, net.hostBits) == Masked(net.value, net.hostBits)
  }

  lemma NextMultiple(d: nat, e: nat, size: nat)
    requires d < e
    ensures d * size + size <= e * size
  {
    assert e * size == d * size + (e - d) * size;
    assert (e - d) * size == size + (e - d - 1) * size;
  }

  /** The multiples of `size` at or below two values agree exactly when the first value
      is less than `size` above the second one's multiple. */
  lemma SameBlock(v: nat, w: nat, size: nat)
    requires size > 0
    ensures v - v % size == w - w % size <==> w - w % size <= v < w - w % size + size
  {
    var d, e := v / size, w / size;
    if d < e {
      NextMultiple(d, e, size);
    } else if d > e {
      NextMultiple(e, d, size);
    }
  }

  /** A prefix covers exactly the 2^hostBits consecutive addresses that start at its own
      value, rounded down to a multiple of that number. */
  predicate InRange(a: Address, net: Network) {
    var first := net.value / Pow2(net.hostBits) * Pow2(net.hostBits);
    a.version == net.version && first <= a.value < first + Pow2(net.hostBits)
  }

  lemma NetworkIsAddressRange(net: Network, a: Address)
    ensures Contains(net, a) <==> InRange(a, net)
  {
    SameBlock(a.value, net.value, Pow2(net.hostBits));
  }

  // ---------------------------------------------------------------- trusted proxies

  /** One entry of the configured list, read on its own. */
  predicate Matches(proxy: string, ip: string, setup: Setup) {
    var p := Strip(proxy);
    || p == "*"
    || p == ip
    || ('/' in p
        && setup.parseNetwork(p).Some?
        && setup.parseAddress(ip).Some?
        && Contains(setup.parseNetwork(p).value, setup.parseAddress(ip).value))
  }

  /** The naive reading of the configuration: some entry of the list matches. */
  predicate Trusted(ip: string, setup: Setup) {
    ip != "" && exists i :: 0 <= i < |setup.proxies| && Matches(setup.proxies[i], Strip(ip), setup)
  }

  predicate ExactEntry(p: string, proxies: seq<string>) {
    p != "*" && exists i :: 0 <= i < |proxies| && Strip(proxies[i]) == p
  }

  predicate NetworkEntry(net: Network, proxies: seq<string>, setup: Setup) {
    exists i :: 0 <= i < |proxies| && '/' in Strip(proxies[i]) && setup.parseNetwork(Strip(proxies[i])) == Some(net)
  }

  lemma EntriesSnoc(proxies: seq<string>, proxy: string, setup: Setup)
    ensures forall p :: ExactEntry(p, proxies + [proxy]) <==> ExactEntry(p, proxies) || (p != "*" && p == Strip(proxy))
    ensures forall net :: NetworkEntry(net, proxies + [proxy], setup) <==>
              NetworkEntry(net, proxies, setup) || ('/' in Strip(proxy) && setup.parseNetwork(Strip(proxy)) == Some(net))
  {
    var all, n := proxies + [proxy], |proxies|;
    assert all[n] == proxy && forall i :: 0 <= i < n ==> all[i] == proxies[i];
  }

  predicate WildcardEntry(proxies: seq<string>) {
    exists i :: 0 <= i < |proxies| && Strip(proxies[i]) == "*"
  }

  /** The parsed form is that of the given entries. */
  ghost predicate AreEntries(wildcard: bool, exact: set<string>, networks: seq<Network>, proxies: seq<string>, setup: Setup) {
    && (wildcard <==> WildcardEntry(proxies))
    && (forall p :: p in exact <==> ExactEntry(p, proxies))
    && (forall net :: net in networks <==> NetworkEntry(net, proxies, setup))
  }

  lemma NextEntry(wildcard: bool, exact: set<string>, networks: seq<Network>, proxies: seq<string>, proxy: string, setup: Setup)
    requires AreEntries(wildcard, exact, networks, proxies, setup)
    ensures var p := Strip(proxy);
            AreEntries(wildcard || p == "*",
                       if p == "*" then exact else exact + {p},
                       if '/' in p && setup.parseNetwork(p).Some? then networks + [setup.parseNetwork(p).value] else networks,
                       proxies + [proxy], setup)
  {
    EntriesSnoc(proxies, proxy, setup);
    var all, n := proxies + [proxy], |proxies|;
    assert all[n] == proxy && forall i :: 0 <= i < n ==> all[i] == proxies[i];
  }

  /** An address is trusted exactly when it is not empty and there is a wildcard, an entry for it,
      or a network that covers it. */
  lemma TrustedIff(ip: string, setup: Setup)
    ensures Trusted(ip, setup) <==>
              ip != "" &&
              (|| WildcardEntry(setup.proxies)
               || (exists i :: 0 <= i < |setup.proxies| && Strip(setup.proxies[i]) == Strip(ip))
               || (setup.parseAddress(Strip(ip)).Some?
                   && exists net :: NetworkEntry(net, setup.proxies, setup) && InRange(setup.parseAddress(Strip(ip)).value, net)))
  {
    var proxies, address := setup.proxies, setup.parseAddress(Strip(ip));
    if address.Some? {
      forall net ensures Contains(net, address.value) <==> InRange(address.value, net) {
        NetworkIsAddressRange(net, address.value);
      }
    }
    forall i | 0 <= i < |proxies| && Matches(proxies[i], Strip(ip), setup)
      ensures || Strip(proxies[i]) == "*" || Strip(proxies[i]) == Strip(ip)
              || (address.Some? && exists net :: NetworkEntry(net, proxies, setup) && InRange(address.value, net))
    {
      var p := Strip(proxies[i]);
      if p != "*" && p != Strip(ip) {
        assert NetworkEntry(setup.parseNetwork(p).value, proxies, setup);
      }
    }
    if i :| 0 <= i < |proxies| && (Strip(proxies[i]) == "*" || Strip(proxies[i]) == Strip(ip)) {
      assert Matches(proxies[i], Strip(ip), setup);
    }
    if address.Some? && exists net :: NetworkEntry(net, proxies, setup) && InRange(address.value, net) {
      var net :| NetworkEntry(net, proxies, setup) && InRange(address.value, net);
      var i :| 0 <= i < |proxies| && '/' in Strip(proxies[i]) && setup.parseNetwork(Strip(proxies[i])) == Some(net);
      assert Matches(proxies[i], Strip(ip), setup);
    }
  }

  method ParseTrustedProxies(setup: Setup) returns (wildcard: bool, exact: set<string>, networks: seq<Network>)
    ensures AreEntries(wildcard, exact, networks, setup.proxies, setup)
  {
    wildcard, exact, networks := false, {}, [];
    for k := 0 to |setup.proxies|
      invariant AreEntries(wildcard, exact, networks, setup.proxies[..k], setup)
    {
      var p := Strip(setup.proxies[k]);
      NextEntry(wildcard, exact, networks, setup.proxies[..k], setup.proxies[k], setup);
      assert setup.proxies[..k + 1] == setup.proxies[..k] + [setup.proxies[k]];
      if p == "*" {
        assert '/' !in p;
        wildcard := true;
        continue;
      }
      exact := exact + {p};
      if '/' in p {
        match setup.parseNetwork(p)
        case Some(net) => networks := networks + [net];
        case None => continue;
      }
    }
    assert setup.proxies[..|setup.proxies|] == setup.proxies;
  }

  method IsTrustedProxy(ipStr: string, setup: Setup) returns (trusted: bool)
    ensures trusted == Trusted(ipStr, setup)
  {
    if ipStr == "" {
      return false;
    }
    var ip := Strip(ipStr);
    var wildcard, exact, networks := ParseTrustedProxies(setup);
    if wildcard {
      ghost var i :| 0 <= i < |setup.proxies| && Strip(setup.proxies[i]) == "*";
      assert Matches(setup.proxies[i], ip, setup);
      return true;
    }
    if ip in exact {
      ghost var i :| 0 <= i < |setup.proxies| && Strip(setup.proxies[i]) == ip;
      assert Matches(setup.proxies[i], ip, setup);
      return true;
    }
    if networks != [] {
      match setup.parseAddress(ip)
      case None =>
      case Some(a) =>
        for k := 0 to |networks|
          invariant forall j :: 0 <= j < k ==> !Contains(networks[j], a)
        {
          if Contains(networks[k], a) {
            assert networks[k] in networks;
            ghost var i :| 0 <= i < |setup.proxies| && '/' in Strip(setup.proxies[i])
                           && setup.parseNetwork(Strip(setup.proxies[i])) == Some(networks[k]);
            assert Matches(setup.proxies[i], ip, setup);
            return true;
          }
        }
    }
    forall i | 0 <= i < |setup.proxies| ensures !Matches(setup.proxies[i], ip, setup) {
      var p := Strip(setup.proxies[i]);
      assert p != "*";
      assert ExactEntry(p, setup.proxies);
      if '/' in p && setup.parseNetwork(p).Some? {
        assert NetworkEntry(setup.parseNetwork(p).value, setup.proxies, setup);
      }
    }
    trusted := false;
  }

  // ---------------------------------------------------------------- the client of a request

  function NonBlank(parts: seq<string>): seq<string> {
    if parts == [] then []
    else (if Strip(parts[0]) != "" then [Strip(parts[0])] else []) + NonBlank(parts[1..])
  }

  /** The hops a forwarding header lists, leftmost first. */
  function Hops(header: string): seq<string> {
    NonBlank(Split(header, ','))
  }

  function Header(h: Option<string>): string {
    match h case None => "" case Some(v) => v
  }

  function ConnectionOf(request: Request): string {
    match request.connection case None => "unknown" case Some(host) => host
  }

  /** `i` is the last position of an untrusted hop. */
  predicate LastUntrusted(hops: seq<string>, i: nat, trusted: string -> bool) {
    && i < |hops| && !trusted(hops[i])
    && forall j :: i < j < |hops| ==> trusted(hops[j])
  }

  /** The rightmost untrusted hop, or the leftmost hop when all are trusted. */
  ghost predicate IsHopAnswer(hops: seq<string>, trusted: string -> bool, ip: string)
    requires hops != []
  {
    if forall i :: 0 <= i < |hops| ==> trusted(hops[i]) then ip == hops[0]
    else exists i: nat :: LastUntrusted(hops, i, trusted) && ip == hops[i]
  }

  function Trust(setup: Setup): string -> bool {
    ip => Trusted(ip, setup)
  }

  /** What the answer for a request has to be. */
  ghost predicate IsClientIp(request: Request, setup: Setup, ip: string) {
    var hops := Hops(Header(request.forwardedFor));
    if !Trusted(ConnectionOf(request), setup) then ip == ConnectionOf(request)
    else if hops != [] then IsHopAnswer(hops, Trust(setup), ip)
    else if Header(request.realIp) != "" then ip == Strip(Header(request.realIp))
    else ip == ConnectionOf(request)
  }

  method ParseHops(header: string) returns (hops: seq<string>)
    ensures hops == Hops(header)
  {
    hops := [];
    var parts := Split(header, ',');
    for k := 0 to |parts|
      invariant hops == NonBlank(parts[..k])
    {
      assert parts[..k + 1] == parts[..k] + [parts[k]];
      NonBlankConcat(parts[..k], [parts[k]]);
      var hop := Strip(parts[k]);
      if hop != "" {
        hops := hops + [hop];
      }
    }
    assert parts[..|parts|] == parts;
  }

  method WalkBackwards(hops: seq<string>, setup: Setup) returns (ip: string)
    requires hops != []
    ensures IsHopAnswer(hops, Trust(setup), ip)
  {
    var i := |hops| - 1;
    while i >= 0
      invariant -1 <= i < |hops|
      invariant forall j :: i < j < |hops| ==> Trust(setup)(hops[j])
    {
      var trusted := IsTrustedProxy(hops[i], setup);
      if !trusted {
        assert LastUntrusted(hops, i, Trust(setup));
        return hops[i];
      }
      i := i - 1;
    }
    ip := hops[0];
  }

  method GetClientIp(request: Request, setup: Setup) returns (ip: string)
    ensures IsClientIp(request, setup, ip)
  {
    var connection := match request.connection case None => "unknown" case Some(host) => host;
    var behindProxy := IsTrustedProxy(connection, setup);
    if behindProxy {
      if request.forwardedFor.Some? && request.forwardedFor.value != "" {
        var hops := ParseHops(request.forwardedFor.value);
        if hops != [] {
          ip := WalkBackwards(hops, setup);
          return;
        }
      }
      if request.realIp.Some? && request.realIp.value != "" {
        return Strip(request.realIp.value);
      }
    }
    ip := connection;
  }

  // ---------------------------------------------------------------- main results

  /** Every request has at most one client, so `IsClientIp` determines the answer. */
  lemma ClientIpIsUnique(request: Request, setup: Setup, ip: string, ip': string)
    requires IsClientIp(request, setup, ip) && IsClientIp(request, setup, ip')
    ensures ip == ip'
  {
  }

  lemma {:induction false} NonBlankConcat(a: seq<string>, b: seq<string>)
    ensures NonBlank(a + b) == NonBlank(a) + NonBlank(b)
  {
    if a == [] {
      assert a + b == b;
    } else {
      assert (a + b)[1..] == a[1..] + b;
      NonBlankConcat(a[1..], b);
    }
  }

  lemma HopsConcat(a: string, b: string)
    ensures Hops(a + "," + b) == Hops(a) + Hops(b)
  {
    SplitConcat(a, b, ',');
    NonBlankConcat(Split(a, ','), Split(b, ','));
  }

  /** What stands between commas is a hop if it is not blank, without the whitespace around it. */
  lemma HopsOfOne(part: string)
    requires ',' !in part
    ensures Hops(part) == if AllSpace(part) then [] else [Strip(part)]
  {
    SplitWhole(part, ',');
    var front, back := StripDropsSpace(part);
    if Strip(part) != "" {
      assert part[|front|] == Strip(part)[0];
    }
    assert NonBlank([part][1..]) == [];
  }

  lemma HopsAfterBlank(header: string)
    ensures Hops(" " + header) == Hops(header)
  {
    assert (" " + header)[1..] == header;
    var parts := Split(header, ',');
    assert (" " + parts[0])[1..] == parts[0];
    assert Split(" " + header, ',')[1..] == parts[1..];
  }

  lemma HopsCons(hop: string, rest: string)
    requires hop != "" && IsStripped(hop) && ',' !in hop
    ensures Hops(hop) == [hop] && Hops(hop + ", " + rest) == [hop] + Hops(rest)
  {
    StripStripped(hop);
    assert !AllSpace(hop);
    HopsOfOne(hop);
    assert hop + ", " + rest == hop + "," + (" " + rest);
    HopsConcat(hop, " " + rest);
    HopsAfterBlank(rest);
  }

  /** A header written as usual reads back as its hops. */
  lemma {:induction false} HopsRoundTrip(hops: seq<string>)
    requires forall i :: 0 <= i < |hops| ==> hops[i] != "" && IsStripped(hops[i]) && ',' !in hops[i]
    ensures Hops(Join(hops, ", ")) == hops
  {
    if hops == [] {
      assert NonBlank([""][1..]) == [];
    } else {
      HopsCons(hops[0], Join(hops[1..], ", "));
      if |hops| > 1 {
        HopsRoundTrip(hops[1..]);
      }
    }
  }

  lemma ShiftedHop(prefix: seq<string>, own: seq<string>, i: nat, trusted: string -> bool)
    requires i < |own|
    ensures LastUntrusted(own, i, trusted) <==> LastUntrusted(prefix + own, |prefix| + i, trusted)
  {
    forall j | i <= j < |own| ensures (prefix + own)[|prefix| + j] == own[j] {
    }
    if LastUntrusted(prefix + own, |prefix| + i, trusted) {
      forall j | i < j < |own| ensures trusted(own[j]) {
        assert trusted((prefix + own)[|prefix| + j]);
      }
    }
  }

  lemma UntrustedStays(prefix: seq<string>, own: seq<string>, trusted: string -> bool)
    requires exists u :: 0 <= u < |own| && !trusted(own[u])
    ensures exists u :: 0 <= u < |prefix + own| && !trusted((prefix + own)[u])
    ensures forall i: nat :: LastUntrusted(prefix + own, i, trusted) ==> i >= |prefix|
  {
    var u :| 0 <= u < |own| && !trusted(own[u]);
    assert (prefix + own)[|prefix| + u] == own[u];
  }

  lemma LongerChain(prefix: seq<string>, own: seq<string>, trusted: string -> bool, ip: string)
    requires exists u :: 0 <= u < |own| && !trusted(own[u])
    ensures IsHopAnswer(own, trusted, ip) <==> IsHopAnswer(prefix + own, trusted, ip)
  {
    var hops := prefix + own;
    UntrustedStays(prefix, own, trusted);
    if IsHopAnswer(own, trusted, ip) {
      var i: nat :| LastUntrusted(own, i, trusted) && ip == own[i];
      ShiftedHop(prefix, own, i, trusted);
      assert ip == hops[|prefix| + i];
    }
    if IsHopAnswer(hops, trusted, ip) {
      var i: nat :| LastUntrusted(hops, i, trusted) && ip == hops[i];
      ShiftedHop(prefix, own, i - |prefix|, trusted);
      assert ip == own[i - |prefix|];
    }
  }

  /** Whatever text is put in front of the forwarding header, an answer that came from an
      untrusted hop stays the answer. */
  lemma PrependedHopsAreIgnored(request: Request, header: string, prefix: string, setup: Setup, ip: string)
    requires request.forwardedFor == Some(header)
    requires exists i :: 0 <= i < |Hops(header)| && !Trust(setup)(Hops(header)[i])
    ensures IsClientIp(request, setup, ip)
       <==> IsClientIp(request.(forwardedFor := Some(prefix + "," + header)), setup, ip)
  {
    HopsConcat(prefix, header);
    LongerChain(Hops(prefix), Hops(header), Trust(setup), ip);
  }

  /** Without a trusted connection the headers have no influence at all. */
  lemma UntrustedConnectionIgnoresHeaders(r: Request, r': Request, setup: Setup, ip: string)
    requires r.connection == r'.connection && !Trusted(ConnectionOf(r), setup)
    ensures IsClientIp(r, setup, ip) <==> IsClientIp(r', setup, ip)
    ensures IsClientIp(r, setup, ip) ==> ip == ConnectionOf(r')
  {
  }

  /** Behind a trusted connection, a header that lists hops as usual leads to the one to the right
      of which all are trusted, and to the leftmost if all of them are. */
  lemma ForwardedClient(request: Request, setup: Setup, hops: seq<string>, i: nat, ip: string)
    requires Trusted(ConnectionOf(request), setup) && i < |hops|
    requires forall k :: 0 <= k < |hops| ==> hops[k] != "" && IsStripped(hops[k]) && ',' !in hops[k]
    requires request.forwardedFor == Some(Join(hops, ", "))
    requires forall k :: i < k < |hops| ==> Trusted(hops[k], setup)
    requires i == 0 || !Trusted(hops[i], setup)
    ensures IsClientIp(request, setup, ip) <==> ip == hops[i]
  {
    HopsRoundTrip(hops);
    AnswerIs(hops, i, Trust(setup), ip);
    assert Header(request.forwardedFor) == Join(hops, ", ");
  }

  lemma AnswerIs(hops: seq<string>, i: nat, trusted: string -> bool, ip: string)
    requires i < |hops| && (i == 0 || !trusted(hops[i])) && forall k :: i < k < |hops| ==> trusted(hops[k])
    ensures IsHopAnswer(hops, trusted, ip) <==> ip == hops[i]
  {
    assert !trusted(hops[i]) ==> LastUntrusted(hops, i, trusted);
  }

  /** Where no hop is listed, the real-IP header is used without the whitespace around it, and
      without that header the connection, which may be unknown. */
  lemma FallbackClient(request: Request, setup: Setup, ip: string)
    requires request.forwardedFor.None? || forall k :: 0 <= k < |request.forwardedFor.value| ==>
               request.forwardedFor.value[k] == ',' || IsSpace(request.forwardedFor.value[k])
    requires IsClientIp(request, setup, ip) && Trusted(ConnectionOf(request), setup)
    ensures if request.realIp.Some? && request.realIp.value != "" then IsCore(ip, request.realIp.value)
            else ip == if request.connection.Some? then request.connection.value else "unknown"
  {
    NoHops(Header(request.forwardedFor));
    var front, back := StripDropsSpace(Header(request.realIp));
  }

  /** The text without the whitespace around it. */
  ghost predicate IsCore(core: string, text: string) {
    IsStripped(core) && exists front, back :: AllSpace(front) && AllSpace(back) && text == front + core + back
  }

  lemma {:induction false} NoHops(header: string)
    requires forall k :: 0 <= k < |header| ==> header[k] == ',' || IsSpace(header[k])
    ensures Hops(header) == []
  {
    if header == "" || ',' !in header {
      HopsOfOne(header);
    } else {
      var k :| 0 <= k < |header| && header[k] == ',';
      assert header == header[..k] + "," + header[k + 1..];
      HopsConcat(header[..k], header[k + 1..]);
      NoHops(header[..k]);
      NoHops(header[k + 1..]);
    }
  }
}
