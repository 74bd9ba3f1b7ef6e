/**
 * The subnet scanner (task3.cpp): pick the first non-loopback IPv4 interface, cut its
 * dotted address at the last dot, sweep the hosts prefix.1 .. prefix.10, record each
 * host whose name lookup succeeds in the global host list, and probe ports
 * 1 .. MAX_PORTS of every target with a non-blocking connect.
 *
 * The interface list, the name lookups and the outcome of each socket, connect, select
 * and getsockopt call are inputs.
 */
module Scanner {
  import opened Inet

  const MAX_HOSTS: int := 256
  const MAX_PORTS: int := 10
  /** Hosts swept by `scan_network`. */
  const HOSTS_SCANNED: int := 10
  /** `INET_ADDRSTRLEN`: room for 15 characters and the terminating NUL. */
  const INET_ADDRSTRLEN: int := 16

  datatype Host = Host(hostname: string, ip: string)

  /** The global `HostList`: a fixed array of MAX_HOSTS entries and the number in use. */
  class HostList {
    var hosts: array<Host>
    var count: int

    predicate Valid()
      reads this
    {
      hosts.Length == MAX_HOSTS && 0 <= count <= MAX_HOSTS
    }

    /** The entries in use, in insertion order. */
    function Contents(): seq<Host>
      reads this, hosts
      requires Valid()
    {
      hosts[..count]
    }

    /** The empty host list `main` starts from. */
    constructor()
      ensures Valid() && Contents() == [] && fresh(hosts)
    {
      hosts := new Host[MAX_HOSTS](_ => Host("", ""));
      count := 0;
    }

    /**
     * Stores the new host in the next free slot and bumps the count.  The source does
     * not check the capacity; the caller must leave room.
     */
    method Append(h: Host)
      requires Valid() && count < MAX_HOSTS
      modifies this, hosts
      ensures Valid() && hosts == old(hosts)
      ensures count == old(count) + 1
      ensures Contents() == old(Contents()) + [h]
    {
      hosts[count] := h;
      count := count + 1;
    }

    /** The "Discovered Hosts" loop of `main`: entries 0 .. count - 1 in order. */
    method Listing() returns (listing: seq<Host>)
      requires Valid()
      ensures listing == Contents()
    {
      listing := [];
      var i := 0;
      while i < count
        invariant 0 <= i <= count
        invariant listing == hosts[..i]
      {
        assert hosts[..i + 1] == hosts[..i] + [hosts[i]];
        listing := listing + [hosts[i]];
        i := i + 1;
      }
    }
  }

  // Choosing the local address (`get_local_ip`).

  datatype SockAddr = Inet4(ip: Ipv4) | OtherFamily(family: int)

  /** One entry of the interface list; `addr` is None where the entry has no address. */
  datatype Interface = Interface(name: string, addr: Option<SockAddr>)

  /** The loopback test of the interface walk: the name starts with "lo". */
  predicate IsLoopbackName(name: string)
  {
    |name| >= 2 && name[..2] == "lo"
  }

  /** An AF_INET entry whose name does not start with "lo". */
  predicate Selectable(i: Interface)
  {
    i.addr.Some? && i.addr.value.Inet4? && !IsLoopbackName(i.name)
  }

  predicate AllHaveAddresses(ifs: seq<Interface>)
  {
    forall k :: 0 <= k < |ifs| ==> ifs[k].addr.Some?
  }

  /** Index of the first selectable entry, or the length of the list. */
  function FirstSelectable(ifs: seq<Interface>): (n: nat)
    ensures n <= |ifs|
    ensures forall j :: 0 <= j < n ==> !Selectable(ifs[j])
    ensures n < |ifs| ==> Selectable(ifs[n])
  {
    if ifs == [] then 0 else if Selectable(ifs[0]) then 0 else 1 + FirstSelectable(ifs[1..])
  }

  /** What `buffer` holds afterwards: the first selectable address, or what it held before. */
  function LocalAddress(ifs: seq<Interface>, buffer: string): string
  {
    var n := FirstSelectable(ifs);
    if n < |ifs| then DottedQuad(ifs[n].addr.value.ip) else buffer
  }

  /**
   * The interface walk.  Every entry must carry an address (a null `ifa_addr` would be
   * dereferenced).  The result is what `buffer` holds afterwards.
   */
  method GetLocalIp(ifs: seq<Interface>, buffer: string) returns (out: string)
    requires AllHaveAddresses(ifs)
    ensures FirstSelectable(ifs) < |ifs| ==> out == DottedQuad(ifs[FirstSelectable(ifs)].addr.value.ip)
    ensures FirstSelectable(ifs) == |ifs| ==> out == buffer
  {
    out := buffer;
    var k := 0;
    while k < |ifs|
      invariant 0 <= k <= FirstSelectable(ifs)
      invariant out == buffer
    {
      var ifa := ifs[k];
      if ifa.addr.value.Inet4? {
        if !(|ifa.name| >= 2 && ifa.name[..2] == "lo") {
          out := DottedQuad(ifa.addr.value.ip);
          return;
        }
      }
      k := k + 1;
    }
  }

  /** When some entry qualifies, the chosen address is that of a qualifying entry with none before it. */
  lemma LocalAddressChosen(ifs: seq<Interface>, buffer: string, j: nat)
    requires j < |ifs| && Selectable(ifs[j])
    ensures exists k :: 0 <= k <= j && Selectable(ifs[k]) && LocalAddress(ifs, buffer) == DottedQuad(ifs[k].addr.value.ip) && (forall m :: 0 <= m < k ==> !Selectable(ifs[m]))
  {
    var k := FirstSelectable(ifs);
    assert k <= j;
    assert forall m :: 0 <= m < k ==> !Selectable(ifs[m]);
  }

  // The network prefix and the targets (`scan_network`).

  /** The index of the last occurrence of c, as `strrchr` finds it. */
  function LastIndexOf(s: string, c: char): (r: Option<nat>)
    ensures r.None? <==> c !in s
    ensures r.Some? ==> r.value < |s| && s[r.value] == c && forall j :: r.value < j < |s| ==> s[j] != c
  {
    if s == [] then None
    else if s[|s| - 1] == c then Some(|s| - 1)
    else LastIndexOf(s[..|s| - 1], c)
  }

  /** The text before the last dot; the whole text when it has no dot. */
  function NetworkPrefix(s: string): (p: string)
    ensures '.' !in s ==> p == s
    ensures '.' in s ==> p + ['.'] <= s && '.' !in s[|p| + 1..]
  {
    match LastIndexOf(s, '.')
    case None => s
    case Some(i) =>
      assert s[..i] + ['.'] == s[..i + 1];
      s[..i]
  }

  /** Ends the address text at its last dot, when it has one, by writing a NUL there. */
  method CutAtLastDot(s: string) returns (p: string)
    ensures p == NetworkPrefix(s)
  {
    p := s;
    var lastDot := LastIndexOf(s, '.');
    if lastDot.Some? {
      p := s[..lastDot.value];
    }
  }

  /** The prefix of a dotted quad is its first three octets. */
  lemma PrefixOfDottedQuad(ip: Ipv4)
    ensures NetworkPrefix(DottedQuad(ip)) == FirstThreeOctets(ip)
  {
    var s := DottedQuad(ip);
    var f := FirstThreeOctets(ip);
    DottedQuadSplit(ip);
    DecimalHasNoDot(ip.d);
    assert s[|f|] == '.';
    assert s[|f| + 1..] == Decimal(ip.d);
    var r := LastIndexOf(s, '.');
    assert r.Some?;
    assert s[..|f|] == f;
  }

  /** `snprintf` into INET_ADDRSTRLEN bytes keeps at most 15 characters. */
  function Clip(s: string): (c: string)
    ensures |c| < INET_ADDRSTRLEN && c <= s
    ensures |s| < INET_ADDRSTRLEN ==> c == s
  {
    if |s| < INET_ADDRSTRLEN then s else s[..INET_ADDRSTRLEN - 1]
  }

  /** Target i: the prefix, a dot and the decimal digits of i, clipped to the 16-byte buffer. */
  function Target(prefix: string, i: nat): string
  {
    Clip(prefix + "." + Decimal(i))
  }

  /** The targets of hosts 1 .. n, in the order scanned. */
  function TargetsUpTo(prefix: string, n: nat): (ts: seq<string>)
    ensures |ts| == n
  {
    if n == 0 then [] else TargetsUpTo(prefix, n - 1) + [Target(prefix, n)]
  }

  lemma {:induction false} TargetsUpToContents(prefix: string, n: nat, k: nat)
    requires k < n
    ensures TargetsUpTo(prefix, n)[k] == Target(prefix, k + 1)
  {
    if k < n - 1 {
      TargetsUpToContents(prefix, n - 1, k);
    }
  }

  /** For a dotted quad a.b.c.d, target i is the address a.b.c.i. */
  lemma TargetOfDottedQuad(ip: Ipv4, i: nat)
    requires 1 <= i <= HOSTS_SCANNED
    ensures Target(NetworkPrefix(DottedQuad(ip)), i) == DottedQuad(Ipv4(ip.a, ip.b, ip.c, i))
  {
    PrefixOfDottedQuad(ip);
  }

  /** No target of a dotted quad's subnet is its network (.0) or broadcast (.255) address. */
  lemma TargetsAvoidNetworkAndBroadcast(ip: Ipv4, i: nat)
    requires 1 <= i <= HOSTS_SCANNED
    ensures Target(NetworkPrefix(DottedQuad(ip)), i) != DottedQuad(Ipv4(ip.a, ip.b, ip.c, 0))
    ensures Target(NetworkPrefix(DottedQuad(ip)), i) != DottedQuad(Ipv4(ip.a, ip.b, ip.c, 255))
  {
    TargetOfDottedQuad(ip, i);
    if Target(NetworkPrefix(DottedQuad(ip)), i) == DottedQuad(Ipv4(ip.a, ip.b, ip.c, 0)) {
      DottedQuadInjective(Ipv4(ip.a, ip.b, ip.c, i), Ipv4(ip.a, ip.b, ip.c, 0));
    }
    if Target(NetworkPrefix(DottedQuad(ip)), i) == DottedQuad(Ipv4(ip.a, ip.b, ip.c, 255)) {
      DottedQuadInjective(Ipv4(ip.a, ip.b, ip.c, i), Ipv4(ip.a, ip.b, ip.c, 255));
    }
  }

  /**
   * The targets are pairwise distinct when nothing is truncated, that is when the prefix
   * has at most 12 characters (a dotted quad's prefix has at most 11).
   */
  lemma TargetsDistinct(prefix: string, i: nat, j: nat)
    requires |prefix| <= 12 && 1 <= i <= HOSTS_SCANNED && 1 <= j <= HOSTS_SCANNED && i != j
    ensures Target(prefix, i) != Target(prefix, j)
  {
    var ti, tj := prefix + "." + Decimal(i), prefix + "." + Decimal(j);
    if Target(prefix, i) == Target(prefix, j) {
      assert ti == tj;
      assert ti[|prefix| + 1..] == Decimal(i);
      assert tj[|prefix| + 1..] == Decimal(j);
      DecimalInjective(i, j);
    }
  }

  lemma PrefixOfDottedQuadIsShort(ip: Ipv4)
    ensures |NetworkPrefix(DottedQuad(ip))| <= 11
  {
    PrefixOfDottedQuad(ip);
  }

  // The port loop (`scan_host`).

  /** What the calls for one port return. */
  datatype PortProbe = PortProbe(
    socketCreated: bool,   // socket() >= 0
    connectResult: int,    // connect()
    inProgress: bool,      // errno == EINPROGRESS after a failed connect
    selectResult: int,     // select()
    soError: int)          // SO_ERROR from getsockopt

  /** The source's rule for reporting a port open. */
  predicate IsOpen(p: PortProbe)
  {
    p.socketCreated && (p.connectResult >= 0 || p.inProgress) && p.selectResult == 1 && p.soError == 0
  }

  /** The open ports among 1 .. n, ascending. */
  function OpenPortsUpTo(probes: seq<PortProbe>, n: nat): (ps: seq<int>)
    requires n <= |probes|
    ensures |ps| <= n
  {
    if n == 0 then []
    else OpenPortsUpTo(probes, n - 1) + (if IsOpen(probes[n - 1]) then [n] else [])
  }

  /** A port is reported exactly when it is in range and its probe says open. */
  lemma {:induction false} OpenPortsMeans(probes: seq<PortProbe>, n: nat, port: int)
    requires n <= |probes|
    ensures port in OpenPortsUpTo(probes, n) <==> 1 <= port <= n && IsOpen(probes[port - 1])
  {
    if n > 0 {
      OpenPortsMeans(probes, n - 1, port);
    }
  }

  /** The reported ports strictly ascend, so each is reported once. */
  lemma {:induction false} OpenPortsAscend(probes: seq<PortProbe>, n: nat)
    requires n <= |probes|
    ensures forall i, j :: 0 <= i < j < |OpenPortsUpTo(probes, n)| ==>
      OpenPortsUpTo(probes, n)[i] < OpenPortsUpTo(probes, n)[j]
    ensures forall i :: 0 <= i < |OpenPortsUpTo(probes, n)| ==> 1 <= OpenPortsUpTo(probes, n)[i] <= n
  {
    if n > 0 {
      OpenPortsAscend(probes, n - 1);
    }
  }

  /** Number of sockets created for ports 1 .. n. */
  function SocketsCreated(probes: seq<PortProbe>, n: nat): (c: nat)
    requires n <= |probes|
    ensures c <= n
  {
    if n == 0 then 0 else SocketsCreated(probes, n - 1) + (if probes[n - 1].socketCreated then 1 else 0)
  }

  /**
   * Ports 1 .. MAX_PORTS in ascending order.  Returns the ports tried, the ports found
   * open, and how many sockets were created and closed.
   */
  method ScanPorts(probes: seq<PortProbe>) returns (tried: seq<int>, open: seq<int>, created: nat, closed: nat)
    requires |probes| == MAX_PORTS
    ensures |tried| == MAX_PORTS && forall k :: 0 <= k < MAX_PORTS ==> tried[k] == k + 1
    ensures open == OpenPortsUpTo(probes, MAX_PORTS)
    ensures created == closed == SocketsCreated(probes, MAX_PORTS)
  {
    tried, open, created, closed := [], [], 0, 0;
    var port := 1;
    while port <= MAX_PORTS
      invariant 1 <= port <= MAX_PORTS + 1
      invariant |tried| == port - 1 && forall k :: 0 <= k < port - 1 ==> tried[k] == k + 1
      invariant open == OpenPortsUpTo(probes, port - 1)
      invariant created == closed == SocketsCreated(probes, port - 1)
    {
      tried := tried + [port];
      var p := probes[port - 1];
      if !p.socketCreated {
        port := port + 1;
        continue;
      }
      created := created + 1;
      if p.connectResult < 0 && !p.inProgress {
        closed := closed + 1;
        port := port + 1;
        continue;
      }
      if p.selectResult == 1 {
        if p.soError == 0 {
          open := open + [port];
        }
      }
      closed := closed + 1;
      port := port + 1;
    }
  }

  /** One open-port report: the host name, its address and the port. */
  datatype OpenReport = OpenReport(host: string, ip: string, port: int)

  /** The host column of the report: the looked-up name, or "Unknown". */
  function Label(lookup: Option<string>): string
  {
    match lookup
    case Some(name) => name
    case None => "Unknown"
  }

  /** One report line per port, in the order of the ports. */
  function ReportsFor(name: string, ip: string, ports: seq<int>): (rs: seq<OpenReport>)
    ensures |rs| == |ports|
  {
    seq(|ports|, k requires 0 <= k < |ports| => OpenReport(name, ip, ports[k]))
  }

  /** What a lookup adds to the host list: one entry on success, nothing on failure. */
  function Added(ip: string, lookup: Option<string>): (hs: seq<Host>)
    ensures |hs| <= 1
  {
    match lookup
    case Some(name) => [Host(name, ip)]
    case None => []
  }

  /** `scan_host`: record the host if its lookup succeeds, then probe its ports. */
  method ScanHost(hl: HostList, ip: string, lookup: Option<string>, probes: seq<PortProbe>)
    returns (reports: seq<OpenReport>)
    requires hl.Valid() && hl.count < MAX_HOSTS && |probes| == MAX_PORTS
    modifies hl, hl.hosts
    ensures hl.Valid() && hl.hosts == old(hl.hosts)
    ensures hl.Contents() == old(hl.Contents()) + Added(ip, lookup)
    ensures reports == ReportsFor(Label(lookup), ip, OpenPortsUpTo(probes, MAX_PORTS))
  {
    if lookup.Some? {
      hl.Append(Host(lookup.value, ip));
    }
    var tried, open, created, closed := ScanPorts(probes);
    var name := if lookup.Some? then lookup.value else "Unknown";
    reports := [];
    var k := 0;
    while k < |open|
      invariant 0 <= k <= |open|
      invariant reports == ReportsFor(name, ip, open[..k])
    {
      assert open[..k + 1][..k] == open[..k];
      reports := reports + [OpenReport(name, ip, open[k])];
      k := k + 1;
    }
    assert open[..|open|] == open;
  }

  // The sweep (`scan_network`) and `main`.

  /** The hosts recorded by targets 1 .. n of a prefix. */
  function Discovered(prefix: string, lookups: seq<Option<string>>, n: nat): (hs: seq<Host>)
    requires n <= |lookups|
    ensures |hs| <= n
  {
    if n == 0 then [] else Discovered(prefix, lookups, n - 1) + Added(Target(prefix, n), lookups[n - 1])
  }

  /** The open-port reports of targets 1 .. n of a prefix. */
  function ReportsUpTo(prefix: string, lookups: seq<Option<string>>, probes: seq<seq<PortProbe>>, n: nat): seq<OpenReport>
    requires n <= |lookups| && n <= |probes|
    requires forall k :: 0 <= k < |probes| ==> |probes[k]| == MAX_PORTS
  {
    if n == 0 then []
    else ReportsUpTo(prefix, lookups, probes, n - 1) +
         ReportsFor(Label(lookups[n - 1]), Target(prefix, n), OpenPortsUpTo(probes[n - 1], MAX_PORTS))
  }

  /**
   * Every host recorded for targets 1 .. n is one of those targets, and when nothing is
   * truncated no address is recorded twice.
   */
  lemma {:induction false} DiscoveredDistinct(prefix: string, lookups: seq<Option<string>>, n: nat)
    requires n <= |lookups| && n <= HOSTS_SCANNED && |prefix| <= 12
    ensures forall k :: 0 <= k < |Discovered(prefix, lookups, n)| ==>
      Discovered(prefix, lookups, n)[k].ip in TargetsUpTo(prefix, n)
    ensures forall i, j :: 0 <= i < j < |Discovered(prefix, lookups, n)| ==>
      Discovered(prefix, lookups, n)[i].ip != Discovered(prefix, lookups, n)[j].ip
  {
    if n > 0 {
      DiscoveredDistinct(prefix, lookups, n - 1);
      var prev := Discovered(prefix, lookups, n - 1);
      var all := Discovered(prefix, lookups, n);
      var t := Target(prefix, n);
      var ts := TargetsUpTo(prefix, n - 1);
      assert all == prev + Added(t, lookups[n - 1]);
      assert TargetsUpTo(prefix, n) == ts + [t];
      assert t !in ts by {
        forall m | 0 <= m < |ts| ensures ts[m] != t {
          TargetsUpToContents(prefix, n - 1, m);
          TargetsDistinct(prefix, m + 1, n);
        }
      }
      forall k | 0 <= k < |all|
        ensures all[k].ip in ts + [t]
      {
        if k < |prev| {
          assert all[k] == prev[k];
        }
      }
      forall i, j | 0 <= i < j < |all|
        ensures all[i].ip != all[j].ip
      {
        assert all[i] == prev[i];
        if j < |prev| {
          assert all[j] == prev[j];
        }
      }
    }
  }

  /**
   * One pass of the loop of `scan_network`: target i of the prefix is built and given
   * to `scan_host`.
   */
  method ScanTarget(hl: HostList, prefix: string, lookups: seq<Option<string>>, probes: seq<seq<PortProbe>>,
                    i: nat, targets: seq<string>, reports: seq<OpenReport>, ghost start: seq<Host>)
    returns (targets': seq<string>, reports': seq<OpenReport>)
    requires 1 <= i <= HOSTS_SCANNED
    requires |lookups| == HOSTS_SCANNED && |probes| == HOSTS_SCANNED
    requires forall k :: 0 <= k < |probes| ==> |probes[k]| == MAX_PORTS
    requires hl.Valid() && hl.count < MAX_HOSTS
    requires targets == TargetsUpTo(prefix, i - 1)
    requires hl.Contents() == start + Discovered(prefix, lookups, i - 1)
    requires reports == ReportsUpTo(prefix, lookups, probes, i - 1)
    modifies hl, hl.hosts
    ensures hl.Valid() && hl.hosts == old(hl.hosts) && hl.count <= old(hl.count) + 1
    ensures targets' == TargetsUpTo(prefix, i)
    ensures hl.Contents() == start + Discovered(prefix, lookups, i)
    ensures reports' == ReportsUpTo(prefix, lookups, probes, i)
  {
    var targetIp := Target(prefix, i);
    targets' := targets + [targetIp];
    ghost var added := Added(targetIp, lookups[i - 1]);
    assert start + Discovered(prefix, lookups, i) == hl.Contents() + added;
    var more := ScanHost(hl, targetIp, lookups[i - 1], probes[i - 1]);
    reports' := reports + more;
  }

  /**
   * The loop of `scan_network`: targets 1 .. HOSTS_SCANNED of the prefix, each given to
   * `scan_host` in turn.
   */
  method ScanTargets(hl: HostList, prefix: string, lookups: seq<Option<string>>, probes: seq<seq<PortProbe>>)
    returns (targets: seq<string>, reports: seq<OpenReport>)
    requires hl.Valid() && hl.count + HOSTS_SCANNED <= MAX_HOSTS
    requires |lookups| == HOSTS_SCANNED && |probes| == HOSTS_SCANNED
    requires forall k :: 0 <= k < |probes| ==> |probes[k]| == MAX_PORTS
    modifies hl, hl.hosts
    ensures hl.Valid() && hl.hosts == old(hl.hosts)
    ensures targets == TargetsUpTo(prefix, HOSTS_SCANNED)
    ensures hl.Contents() == old(hl.Contents()) + Discovered(prefix, lookups, HOSTS_SCANNED)
    ensures reports == ReportsUpTo(prefix, lookups, probes, HOSTS_SCANNED)
  {
    targets, reports := [], [];
    ghost var start := hl.Contents();
    var i := 1;
    while i <= HOSTS_SCANNED
      invariant 1 <= i <= HOSTS_SCANNED + 1
      invariant hl.Valid() && hl.hosts == old(hl.hosts)
      invariant hl.count <= old(hl.count) + i - 1
      invariant targets == TargetsUpTo(prefix, i - 1)
      invariant hl.Contents() == start + Discovered(prefix, lookups, i - 1)
      invariant reports == ReportsUpTo(prefix, lookups, probes, i - 1)
    {
      targets, reports := ScanTarget(hl, prefix, lookups, probes, i, targets, reports, start);
      i := i + 1;
    }
  }

  /**
   * `scan_network`: find the local address, cut it to the prefix, and scan the ten targets.
   * `buffer` is what `base_ip` holds before `get_local_ip`, which keeps it when no
   * interface qualifies.
   */
  method ScanNetwork(hl: HostList, ifs: seq<Interface>, buffer: string,
                     lookups: seq<Option<string>>, probes: seq<seq<PortProbe>>)
    returns (localIp: string, targets: seq<string>, reports: seq<OpenReport>)
    requires hl.Valid() && hl.count + HOSTS_SCANNED <= MAX_HOSTS
    requires AllHaveAddresses(ifs)
    requires |lookups| == HOSTS_SCANNED && |probes| == HOSTS_SCANNED
    requires forall k :: 0 <= k < |probes| ==> |probes[k]| == MAX_PORTS
    modifies hl, hl.hosts
    ensures hl.Valid() && hl.hosts == old(hl.hosts)
    ensures localIp == LocalAddress(ifs, buffer)
    ensures targets == TargetsUpTo(NetworkPrefix(localIp), HOSTS_SCANNED)
    ensures hl.Contents() == old(hl.Contents()) + Discovered(NetworkPrefix(localIp), lookups, HOSTS_SCANNED)
    ensures reports == ReportsUpTo(NetworkPrefix(localIp), lookups, probes, HOSTS_SCANNED)
  {
    localIp := GetLocalIp(ifs, buffer);
    var baseIp := CutAtLastDot(localIp);
    targets, reports := ScanTargets(hl, baseIp, lookups, probes);
  }

  /**
   * `main`: an empty host list, the sweep, then the "Discovered Hosts" listing of every
   * entry in insertion order.
   */
  method RunScanner(ifs: seq<Interface>, buffer: string, lookups: seq<Option<string>>, probes: seq<seq<PortProbe>>)
    returns (localIp: string, targets: seq<string>, reports: seq<OpenReport>, listing: seq<Host>)
    requires AllHaveAddresses(ifs)
    requires |lookups| == HOSTS_SCANNED && |probes| == HOSTS_SCANNED
    requires forall k :: 0 <= k < |probes| ==> |probes[k]| == MAX_PORTS
    ensures localIp == LocalAddress(ifs, buffer)
    ensures targets == TargetsUpTo(NetworkPrefix(localIp), HOSTS_SCANNED)
    ensures reports == ReportsUpTo(NetworkPrefix(localIp), lookups, probes, HOSTS_SCANNED)
    ensures listing == Discovered(NetworkPrefix(localIp), lookups, HOSTS_SCANNED)
  {
    var hl := new HostList();
    localIp, targets, reports := ScanNetwork(hl, ifs, buffer, lookups, probes);
    listing := hl.Listing();
  }

  /**
   * When the local address comes from an interface, the listing holds at most
   * HOSTS_SCANNED entries, each a target and no address twice, so the host list
   * cannot overflow.
   */
  lemma ListingHasNoDuplicates(ifs: seq<Interface>, buffer: string, lookups: seq<Option<string>>)
    requires FirstSelectable(ifs) < |ifs| && |lookups| == HOSTS_SCANNED
    ensures var prefix := NetworkPrefix(LocalAddress(ifs, buffer));
      |Discovered(prefix, lookups, HOSTS_SCANNED)| <= HOSTS_SCANNED &&
      (forall k :: 0 <= k < |Discovered(prefix, lookups, HOSTS_SCANNED)| ==>
        Discovered(prefix, lookups, HOSTS_SCANNED)[k].ip in TargetsUpTo(prefix, HOSTS_SCANNED)) &&
      (forall i, j :: 0 <= i < j < |Discovered(prefix, lookups, HOSTS_SCANNED)| ==>
        Discovered(prefix, lookups, HOSTS_SCANNED)[i].ip != Discovered(prefix, lookups, HOSTS_SCANNED)[j].ip)
  {
    PrefixOfDottedQuadIsShort(ifs[FirstSelectable(ifs)].addr.value.ip);
    DiscoveredDistinct(NetworkPrefix(LocalAddress(ifs, buffer)), lookups, HOSTS_SCANNED);
  }
}
