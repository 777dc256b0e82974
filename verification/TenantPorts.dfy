/** One pass of the tenant-port loop: the pods of this node in, the two port sets out. */
module TenantPorts {
  import opened Texts
  import opened IpText
  import opened Validation
  import opened NftKeys
  import opened NftPorts
  import opened Fingerprints
  import opened Firewall
  import opened Convergence

  // ---- objects ---------------------------------------------------------------

  datatype Transport = TCP | UDP

  datatype ContainerPort = ContainerPort(hostPort: int, protocol: string)

  datatype Pod = Pod(namespace: string, nodeName: string, containers: seq<seq<ContainerPort>>, annotations: map<string, string>)

  /** The annotations of each namespace the lister knows; looking up any other name fails. */
  type Namespaces = map<string, map<string, string>>

  const TENANT_NAMESPACE := "platform.phoenix-host.net/tenant-namespace"

  function PortAnnotation(t: Transport): string {
    if t.TCP? then "platform.io/firewall-tcp-ports" else "platform.io/firewall-udp-ports"
  }

  /** isTenantNamespace; none when the lookup fails. */
  function IsTenantNamespace(nses: Namespaces, name: string): Option<bool> {
    if "client-" <= name then Some(true)
    else if name !in nses then None
    else Some(TENANT_NAMESPACE in nses[name] && nses[name][TENANT_NAMESPACE] == "true")
  }

  /** The pod runs here and belongs to a tenant. */
  predicate Counts(pod: Pod, nodeName: string, nses: Namespaces) {
    pod.nodeName == nodeName && IsTenantNamespace(nses, pod.namespace) == Some(true)
  }

  // ---- what a pod declares ---------------------------------------------------

  /** Upper case of the letters; no other character has an upper case among the letters of "TCP" and "UDP". */
  function Upper(s: string): string {
    seq(|s|, i requires 0 <= i < |s| => if 'a' <= s[i] <= 'z' then s[i] - 'a' + 'A' else s[i])
  }

  /** An empty protocol means TCP. */
  function TransportOf(protocol: string): Option<Transport> {
    if Upper(protocol) == "UDP" then Some(UDP)
    else if Upper(protocol) == "" || Upper(protocol) == "TCP" then Some(TCP)
    else None
  }

  /** The element a container port adds to the set of t. */
  function HostPort(p: ContainerPort, t: Transport): Option<string> {
    if 1 <= p.hostPort <= 65535 && TransportOf(p.protocol) == Some(t) then Some(Decimal(p.hostPort)) else None
  }

  function HostPorts(ports: seq<ContainerPort>, t: Transport): set<string> {
    set p | p in ports && HostPort(p, t).Some? :: HostPort(p, t).value
  }

  function ContainerPorts(cs: seq<seq<ContainerPort>>, t: Transport): set<string> {
    set c, s | c in cs && s in HostPorts(c, t) :: s
  }

  /** tenantPortRegex: digits, or digits, a dash and digits. */
  predicate TenantPort(s: string) {
    var d := FirstDash(s);
    if d.None? then s != "" && AllDigits(s)
    else 0 < d.value < |s| - 1 && AllDigits(s[..d.value]) && AllDigits(s[d.value + 1..])
  }

  /** The elements a port annotation adds. */
  function EntryPorts(entries: seq<string>): set<string> {
    set raw | raw in entries && TenantPort(TrimSpace(raw)) :: TrimSpace(raw)
  }

  function AnnotatedPorts(pod: Pod, t: Transport): set<string> {
    if PortAnnotation(t) in pod.annotations then EntryPorts(SplitOn(pod.annotations[PortAnnotation(t)], ',')) else {}
  }

  function PodPorts(pod: Pod, t: Transport): set<string> { ContainerPorts(pod.containers, t) + AnnotatedPorts(pod, t) }

  function NodePorts(pods: seq<Pod>, nodeName: string, nses: Namespaces, t: Transport): set<string> {
    set pod, s | pod in pods && Counts(pod, nodeName, nses) && s in PodPorts(pod, t) :: s
  }

  // ---- collecting ------------------------------------------------------------

  /** The two accumulators of a pass. */
  class PortCollector {
    var tcp: set<string>
    var udp: set<string>

    constructor ()
      ensures tcp == {} && udp == {}
    {
      tcp, udp := {}, {};
    }

    /** The inner loop of collectHostPorts, over the ports of one container. */
    method CollectContainer(ports: seq<ContainerPort>)
      modifies this
      ensures tcp == old(tcp) + HostPorts(ports, TCP) && udp == old(udp) + HostPorts(ports, UDP)
    {
      hide HostPorts;
      NoHostPorts();
      for j := 0 to |ports|
        invariant tcp == old(tcp) + HostPorts(ports[..j], TCP) && udp == old(udp) + HostPorts(ports[..j], UDP)
      {
        var p := ports[j];
        assert ports[..j + 1] == ports[..j] + [p];
        AddHostPort(ports[..j], p, TCP);
        AddHostPort(ports[..j], p, UDP);
        hide Decimal, Upper;
        if p.hostPort == 0 {
          continue;
        }
        if p.hostPort < 1 || p.hostPort > 65535 {
          continue;
        }
        var elem := Decimal(p.hostPort);
        var protocol := Upper(p.protocol);
        if protocol == "UDP" {
          udp := udp + {elem};
        } else if protocol == "" || protocol == "TCP" {
          tcp := tcp + {elem};
        }
      }
      assert ports[..|ports|] == ports;
    }

    /** collectHostPorts. */
    method CollectHostPorts(pod: Pod)
      modifies this
      ensures tcp == old(tcp) + ContainerPorts(pod.containers, TCP) && udp == old(udp) + ContainerPorts(pod.containers, UDP)
    {
      hide HostPorts;
      var cs := pod.containers;
      for i := 0 to |cs|
        invariant tcp == old(tcp) + ContainerPorts(cs[..i], TCP) && udp == old(udp) + ContainerPorts(cs[..i], UDP)
      {
        assert cs[..i + 1] == cs[..i] + [cs[i]];
        AddContainer(cs[..i], cs[i], TCP);
        AddContainer(cs[..i], cs[i], UDP);
        CollectContainer(cs[i]);
      }
      assert cs[..|cs|] == cs;
    }

    /** The loops of collectAnnotationPorts. */
    method CollectAnnotationPorts(pod: Pod)
      modifies this
      ensures tcp == old(tcp) + AnnotatedPorts(pod, TCP) && udp == old(udp) + AnnotatedPorts(pod, UDP)
    {
      hide EntryPorts, SplitOn;
      if PortAnnotation(TCP) in pod.annotations {
        var elems := CollectEntries(SplitOn(pod.annotations[PortAnnotation(TCP)], ','));
        tcp := tcp + elems;
      }
      if PortAnnotation(UDP) in pod.annotations {
        var elems := CollectEntries(SplitOn(pod.annotations[PortAnnotation(UDP)], ','));
        udp := udp + elems;
      }
    }
  }

  lemma NoHostPorts()
    ensures forall t :: HostPorts([], t) == {}
  {
  }

  lemma AddHostPort(ports: seq<ContainerPort>, p: ContainerPort, t: Transport)
    ensures HostPorts(ports + [p], t) == HostPorts(ports, t) + if HostPort(p, t).Some? then {HostPort(p, t).value} else {}
  {
    hide HostPort;
  }

  lemma AddContainer(cs: seq<seq<ContainerPort>>, c: seq<ContainerPort>, t: Transport)
    ensures ContainerPorts(cs + [c], t) == ContainerPorts(cs, t) + HostPorts(c, t)
  {
    hide HostPorts;
    assert c in cs + [c];
    assert forall d :: d in cs + [c] <==> d in cs || d == c;
  }

  /** The entries of one annotation that pass tenantPortRegex. */
  method CollectEntries(entries: seq<string>) returns (elems: set<string>)
    ensures elems == EntryPorts(entries)
  {
    hide TrimSpace;
    elems := {};
    for i := 0 to |entries|
      invariant elems == EntryPorts(entries[..i])
    {
      assert entries[..i + 1] == entries[..i] + [entries[i]];
      var elem := TrimSpace(entries[i]);
      if elem == "" {
        continue;
      }
      if !TenantPort(elem) {
        continue;
      }
      elems := elems + {elem};
    }
    assert entries[..|entries|] == entries;
  }

  /** sortedKeys: the map is walked in any order. */
  method SortedKeys(m: set<string>) returns (out: seq<string>)
    ensures Sorted(out) && Distinct(out) && forall s :: s in out <==> s in m
  {
    hide Leq;
    out := [];
    var rest := m;
    while rest != {}
      invariant rest <= m && Distinct(out)
      invariant forall s :: s in out <==> s in m && s !in rest
      decreases |rest|
    {
      var k :| k in rest;
      out := out + [k];
      rest := rest - {k};
    }
    ghost var unsorted := out;
    out := SortStrings(out);
    forall s ensures multiset(out)[s] <= 1 && (s in out <==> s in m) {
      DistinctCount(unsorted, s);
      assert s in out <==> s in multiset(out);
    }
    CountsMakeDistinct(out);
  }

  // ---- the pass --------------------------------------------------------------

  /** The desired port sets of a pass over these pods. */
  ghost predicate IsDesired(d: PortSets, pods: seq<Pod>, nodeName: string, nses: Namespaces) {
    && Sorted(d.tcp) && Distinct(d.tcp) && (forall s :: s in d.tcp <==> s in NodePorts(pods, nodeName, nses, TCP))
    && Sorted(d.udp) && Distinct(d.udp) && (forall s :: s in d.udp <==> s in NodePorts(pods, nodeName, nses, UDP))
  }

  lemma AddPod(pods: seq<Pod>, pod: Pod, nodeName: string, nses: Namespaces, t: Transport)
    ensures NodePorts(pods + [pod], nodeName, nses, t)
         == NodePorts(pods, nodeName, nses, t) + if Counts(pod, nodeName, nses) then PodPorts(pod, t) else {}
  {
    hide PodPorts, Counts;
    assert pod in pods + [pod];
    assert forall q :: q in pods + [pod] <==> q in pods || q == pod;
  }

  /** reconcileOnce: false when the lister or the kernel write failed. */
  method ReconcileOnce(applier: Applier, nodeName: string, pods: Option<seq<Pod>>, nses: Namespaces, x: PortFaults, fault: ApplyFault)
    returns (ok: bool)
    modifies applier`ports
    ensures pods.None? ==> !ok && applier.ports == old(applier.ports)
    ensures pods.Some? ==>
              exists d :: IsDesired(d, pods.value, nodeName, nses) &&
                          applier.ports == PortsIfChanged(old(applier.ports), d, x, fault).0 &&
                          ok == PortsIfChanged(old(applier.ports), d, x, fault).2
    ensures pods.Some? && fault.NoFault? ==> ok
  {
    hide Counts, ContainerPorts, AnnotatedPorts, NodePorts, PortsIfChanged;
    if pods.None? {
      return false;
    }
    var c := new PortCollector();
    var ps := pods.value;
    EmptyNode(nodeName, nses);
    for i := 0 to |ps|
      invariant applier.ports == old(applier.ports)
      invariant c.tcp == NodePorts(ps[..i], nodeName, nses, TCP) && c.udp == NodePorts(ps[..i], nodeName, nses, UDP)
    {
      var pod := ps[i];
      assert ps[..i + 1] == ps[..i] + [pod];
      AddPod(ps[..i], pod, nodeName, nses, TCP);
      AddPod(ps[..i], pod, nodeName, nses, UDP);
      CountsWhen(pod, nodeName, nses);
      if pod.nodeName != nodeName {
        continue;
      }
      var tenant := IsTenantNamespace(nses, pod.namespace);
      if tenant.None? {
        continue;
      }
      if !tenant.value {
        continue;
      }
      c.CollectHostPorts(pod);
      c.CollectAnnotationPorts(pod);
    }
    assert ps[..|ps|] == ps;
    var tcp := SortedKeys(c.tcp);
    var udp := SortedKeys(c.udp);
    var desired := PortSets(tcp, udp);
    assert IsDesired(desired, ps, nodeName, nses);
    var changed;
    changed, ok := applier.ApplyPortsIfChanged(desired, x, fault);
  }

  lemma EmptyNode(nodeName: string, nses: Namespaces)
    ensures forall t :: NodePorts([], nodeName, nses, t) == {}
  {
  }

  lemma CountsWhen(pod: Pod, nodeName: string, nses: Namespaces)
    ensures Counts(pod, nodeName, nses) <==> pod.nodeName == nodeName && IsTenantNamespace(nses, pod.namespace) == Some(true)
  {
  }

  // ---- what a pass guarantees ------------------------------------------------

  /** The desired lists are determined by the pods. */
  lemma DesiredUnique(d: PortSets, e: PortSets, pods: seq<Pod>, nodeName: string, nses: Namespaces)
    requires IsDesired(d, pods, nodeName, nses) && IsDesired(e, pods, nodeName, nses)
    ensures d == e
  {
    hide NodePorts;
    SortedSetUnique(d.tcp, e.tcp);
    SortedSetUnique(d.udp, e.udp);
  }

  lemma TrimmedHasNoBlanks(raw: string)
    ensures Trimmed(TrimSpace(raw)) == TrimSpace(raw)
  {
    hide TrimBy;
    var lead, trail := TrimParts(IsSpace, raw);
    assert forall c :: IsBlank(c) ==> IsSpace(c);
    TrimOfTight(IsBlank, TrimSpace(raw));
  }

  /** The regular expression refuses no annotation entry that the encoder understands. */
  lemma RegexRefusesNoPorts(raw: string)
    requires PortsNamed(TrimSpace(raw)).Some?
    ensures TenantPort(TrimSpace(raw))
  {
    hide TrimSpace;
    TrimmedHasNoBlanks(raw);
  }

  /** One or more digits. */
  ghost predicate Digits(s: string) { s != "" && forall i :: 0 <= i < |s| ==> '0' <= s[i] <= '9' }

  lemma DigitsAre(s: string)
    ensures Digits(s) <==> s != "" && AllDigits(s)
    ensures Digits(s) ==> Free(s, '-')
  {
  }

  lemma DashedPasses(a: string, b: string)
    requires Digits(a) && Digits(b)
    ensures TenantPort(a + "-" + b)
  {
    hide Digits, AllDigits, FirstDash;
    var s := a + "-" + b;
    DigitsAre(a);
    DigitsAre(b);
    FirstDashAt(a, b);
    assert s[..|a|] == a && s[|a| + 1..] == b;
  }

  /** The regular expression admits digits, and digits, a dash and digits. */
  lemma RegexExactly(s: string)
    ensures TenantPort(s) <==> Digits(s) || exists a, b :: s == a + "-" + b && Digits(a) && Digits(b)
  {
    hide Digits, AllDigits, FirstDash;
    DigitsAre(s);
    if a, b :| s == a + "-" + b && Digits(a) && Digits(b) {
      DashedPasses(a, b);
    }
    var d := FirstDash(s);
    if TenantPort(s) && d.Some? {
      var a, b := s[..d.value], s[d.value + 1..];
      DigitsAre(a);
      DigitsAre(b);
      assert s == a + "-" + b && Digits(a) && Digits(b);
    }
  }

  /** The protocol names this transport, in either case; an empty one stands for TCP. */
  ghost predicate Speaks(protocol: string, t: Transport) {
    match t
    case TCP => protocol == "" ||
      (|protocol| == 3 && protocol[0] in {'T', 't'} && protocol[1] in {'C', 'c'} && protocol[2] in {'P', 'p'})
    case UDP => |protocol| == 3 && protocol[0] in {'U', 'u'} && protocol[1] in {'D', 'd'} && protocol[2] in {'P', 'p'}
  }

  /** A port that a pod asks for: a host port of this transport, or one named by an entry of its annotation. */
  ghost predicate Asks(pod: Pod, t: Transport, x: nat) {
    var key := match t case TCP => "platform.io/firewall-tcp-ports" case UDP => "platform.io/firewall-udp-ports";
    || (exists c, p :: c in pod.containers && p in c && p.hostPort == x && Speaks(p.protocol, t))
    || (key in pod.annotations && exists raw :: raw in SplitOn(pod.annotations[key], ',') && PortNames(TrimSpace(raw), x))
  }

  /** The pod runs on this node, in a namespace that is a tenant's by its name or by its annotation. */
  ghost predicate OfTenant(pod: Pod, nodeName: string, nses: Namespaces) {
    pod.nodeName == nodeName &&
    ("client-" <= pod.namespace ||
     (pod.namespace in nses && "platform.phoenix-host.net/tenant-namespace" in nses[pod.namespace] &&
      nses[pod.namespace]["platform.phoenix-host.net/tenant-namespace"] == "true"))
  }

  lemma CountsExactly(pod: Pod, nodeName: string, nses: Namespaces)
    ensures Counts(pod, nodeName, nses) <==> OfTenant(pod, nodeName, nses)
  {
  }

  lemma UpperOf(s: string, u: string)
    ensures Upper(s) == u <==> |s| == |u| && forall i :: 0 <= i < |s| ==> u[i] == if 'a' <= s[i] <= 'z' then s[i] - 'a' + 'A' else s[i]
  {
    assert |s| == |u| && (forall i :: 0 <= i < |s| ==> u[i] == Upper(s)[i]) ==> Upper(s) == u;
  }

  lemma SpeaksExactly(protocol: string, t: Transport)
    ensures TransportOf(protocol) == Some(t) <==> Speaks(protocol, t)
  {
    hide Upper;
    UpperOf(protocol, "UDP");
    UpperOf(protocol, "TCP");
    UpperOf(protocol, "");
  }

  lemma DecimalNames(n: nat, x: nat)
    requires 1 <= n <= 65535
    ensures PortNames(Decimal(n), x) <==> x == n
    ensures CanonicalPort(Decimal(n))
  {
    hide Decimal, PortNames, PortsNamed;
    PortTextParses(Ports(n, n));
    PortNamesRead(Decimal(n), x);
  }

  lemma ContainerAsks(pod: Pod, t: Transport, x: nat)
    requires 1 <= x <= 65535
    ensures (exists s :: s in ContainerPorts(pod.containers, t) && PortNames(s, x))
            <==> exists c, p :: c in pod.containers && p in c && p.hostPort == x && Speaks(p.protocol, t)
  {
    hide TransportOf, Speaks, PortNames, Decimal;
    if s :| s in ContainerPorts(pod.containers, t) && PortNames(s, x) {
      var c :| c in pod.containers && s in HostPorts(c, t);
      var p :| p in c && HostPort(p, t) == Some(s);
      DecimalNames(p.hostPort, x);
      SpeaksExactly(p.protocol, t);
      assert c in pod.containers && p in c;
    }
    if c, p :| c in pod.containers && p in c && p.hostPort == x && Speaks(p.protocol, t) {
      DecimalNames(x, x);
      SpeaksExactly(p.protocol, t);
      assert HostPort(p, t) == Some(Decimal(x));
      assert Decimal(x) in HostPorts(c, t);
      assert Decimal(x) in ContainerPorts(pod.containers, t);
    }
  }

  lemma AnnotationAsks(pod: Pod, t: Transport, x: nat)
    ensures (exists s :: s in AnnotatedPorts(pod, t) && PortNames(s, x))
            <==> PortAnnotation(t) in pod.annotations &&
                 exists raw :: raw in SplitOn(pod.annotations[PortAnnotation(t)], ',') && PortNames(TrimSpace(raw), x)
  {
    hide TrimSpace, SplitOn, TenantPort, PortsNamed, PortNames;
    if PortAnnotation(t) in pod.annotations {
      var entries := SplitOn(pod.annotations[PortAnnotation(t)], ',');
      if raw :| raw in entries && PortNames(TrimSpace(raw), x) {
        PortNamesRead(TrimSpace(raw), x);
        RegexRefusesNoPorts(raw);
        assert TrimSpace(raw) in EntryPorts(entries);
      }
    }
  }

  lemma PodAsks(pod: Pod, t: Transport, x: nat)
    requires 1 <= x <= 65535
    ensures (exists s :: s in PodPorts(pod, t) && PortNames(s, x)) <==> Asks(pod, t, x)
  {
    ContainerAsks(pod, t, x);
    AnnotationAsks(pod, t, x);
    hide ContainerPorts, AnnotatedPorts, PortNames, Speaks, SplitOn, TrimSpace;
  }

  /** Some desired string names a port if and only if a tenant pod of this node asks for it. */
  lemma DesiredNamesAsked(d: PortSets, pods: seq<Pod>, nodeName: string, nses: Namespaces, t: Transport, x: nat)
    requires IsDesired(d, pods, nodeName, nses) && 1 <= x <= 65535
    ensures (exists s :: s in (if t.TCP? then d.tcp else d.udp) && PortNames(s, x))
            <==> exists pod :: pod in pods && OfTenant(pod, nodeName, nses) && Asks(pod, t, x)
  {
    hide PodPorts, Counts, OfTenant, Asks, PortNames;
    var ps := if t.TCP? then d.tcp else d.udp;
    if s :| s in ps && PortNames(s, x) {
      assert s in NodePorts(pods, nodeName, nses, t);
      var pod :| pod in pods && Counts(pod, nodeName, nses) && s in PodPorts(pod, t);
      CountsExactly(pod, nodeName, nses);
      PodAsks(pod, t, x);
    }
    if pod :| pod in pods && OfTenant(pod, nodeName, nses) && Asks(pod, t, x) {
      CountsExactly(pod, nodeName, nses);
      PodAsks(pod, t, x);
      var s :| s in PodPorts(pod, t) && PortNames(s, x);
      assert s in NodePorts(pods, nodeName, nses, t);
    }
  }

  /** After a pass that wrote, the kernel accepts a port exactly when a tenant pod of this node asks for it. */
  lemma PortOpenExactly(d: PortSets, pods: seq<Pod>, nodeName: string, nses: Namespaces, t: Transport, x: nat)
    requires IsDesired(d, pods, nodeName, nses) && 1 <= x <= 65535
    ensures var tables := EncodedPorts(d);
      Matches((if t.TCP? then tables.first else tables.second).elements, 2, x)
      <==> exists pod :: pod in pods && OfTenant(pod, nodeName, nses) && Asks(pod, t, x)
  {
    hide IsDesired, OfTenant, Asks, PortNames, Matches, Flatten, PortIntervals;
    PortsDenote(if t.TCP? then d.tcp else d.udp, x);
    DesiredNamesAsked(d, pods, nodeName, nses, t, x);
  }

  /** A pass in which no write fails succeeds from any kernel, missing sets included: either both sets were
      read and read as desired, and stay as they are, or a port is open afterwards exactly when a tenant pod
      of this node asks for it. */
  lemma FaultFreePass(d: PortSets, pods: seq<Pod>, nodeName: string, nses: Namespaces, t: TablePair, x: PortFaults, port: nat)
    requires IsDesired(d, pods, nodeName, nses) && 1 <= port <= 65535
    ensures var (left, changed, ok) := PortsIfChanged(t, d, x, NoFault);
      && ok
      && (!changed ==> left == t && PortsObserved(t, x) == Some(d))
      && (changed ==> left.first.Holding? && left.second.Holding?)
      && (changed ==> (Matches(left.first.elements, 2, port)
                       <==> exists pod :: pod in pods && OfTenant(pod, nodeName, nses) && Asks(pod, TCP, port)))
      && (changed ==> (Matches(left.second.elements, 2, port)
                       <==> exists pod :: pod in pods && OfTenant(pod, nodeName, nses) && Asks(pod, UDP, port)))
  {
    hide IsDesired, OfTenant, Asks, PortNames, Matches, PortsIfChanged, PortsObserved, Members;
    DesiredMembers(d, pods, nodeName, nses);
    PortsStepExactly(t, d, x, NoFault);
    DesiredNamesAsked(d, pods, nodeName, nses, TCP, port);
    DesiredNamesAsked(d, pods, nodeName, nses, UDP, port);
  }

  /** Every annotation entry that passes the regular expression is in its canonical spelling. */
  ghost predicate EntriesCanonical(pod: Pod) {
    forall t, s :: s in AnnotatedPorts(pod, t) ==> CanonicalPort(s)
  }

  lemma TenantPortIsMember(s: string)
    requires TenantPort(s)
    ensures Member(s)
  {
    forall i | 0 <= i < |s| ensures s[i] == '-' || IsDigit(s[i]) {
      var d := FirstDash(s);
      if d.Some? && i > d.value { assert s[d.value + 1..][i - d.value - 1] == s[i]; }
      if d.Some? && i < d.value { assert s[..d.value][i] == s[i]; }
    }
  }

  lemma PodPortIs(pod: Pod, t: Transport, s: string)
    requires s in PodPorts(pod, t)
    ensures Member(s)
    ensures s in AnnotatedPorts(pod, t) || CanonicalPort(s)
  {
    hide TenantPort, TrimSpace, SplitOn, Decimal, CanonicalPort;
    if s in ContainerPorts(pod.containers, t) {
      var c :| c in pod.containers && s in HostPorts(c, t);
      var p :| p in c && HostPort(p, t) == Some(s);
      DecimalNames(p.hostPort, p.hostPort);
      DecimalRoundTrip(p.hostPort);
      DigitsFree(s, ',');
      DigitsFree(s, '|');
    } else {
      TenantPortIsMember(s);
    }
  }

  lemma DesiredMembers(d: PortSets, pods: seq<Pod>, nodeName: string, nses: Namespaces)
    requires IsDesired(d, pods, nodeName, nses)
    ensures Members(d.tcp) && Members(d.udp)
  {
    hide Counts, AnnotatedPorts, ContainerPorts, Sorted, Distinct, Member;
    forall k, s | s in NodePorts(pods, nodeName, nses, k)
      ensures Member(s)
    {
      var pod :| pod in pods && Counts(pod, nodeName, nses) && s in PodPorts(pod, k);
      PodPortIs(pod, k, s);
    }
    assert forall s :: s in d.tcp ==> s in NodePorts(pods, nodeName, nses, TCP);
    assert forall s :: s in d.udp ==> s in NodePorts(pods, nodeName, nses, UDP);
  }

  /** A pass that wrote, then a pass over the same pods on an untouched kernel: the second writes nothing
      exactly when every admitted annotation entry is canonical and no port was lost in the first write. */
  lemma SecondPassQuiet(d: PortSets, pods: seq<Pod>, nodeName: string, nses: Namespaces, t: TablePair, x: PortFaults,
                        fault: ApplyFault, later: ApplyFault)
    requires IsDesired(d, pods, nodeName, nses) && PortsIfChanged(t, d, x, fault).1
    ensures PortsIfChanged(t, d, x, fault).0 == PairWritten(EncodedPorts(d), fault)
    ensures var left := PairWritten(EncodedPorts(d), fault);
      PortsIfChanged(left, d, NO_PORT_FAULTS, later) == (left, false, true)
      <==> (forall pod :: pod in pods && Counts(pod, nodeName, nses) ==> EntriesCanonical(pod)) && NoPortsLost(d, fault)
  {
    hide Counts, CanonicalPort, NodePorts, PortsIfChanged, PairWritten, NoPortsLost, Sorted, Members, EncodedPorts;
    DesiredMembers(d, pods, nodeName, nses);
    PortsApplyThenQuiet(t, d, x, fault, later);
    CanonicalEverywhere(d, pods, nodeName, nses);
  }

  lemma CanonicalEverywhere(d: PortSets, pods: seq<Pod>, nodeName: string, nses: Namespaces)
    requires IsDesired(d, pods, nodeName, nses)
    ensures (forall m :: m in d.tcp + d.udp ==> CanonicalPort(m))
            <==> forall pod :: pod in pods && Counts(pod, nodeName, nses) ==> EntriesCanonical(pod)
  {
    hide Counts, CanonicalPort, AnnotatedPorts, ContainerPorts, Sorted, Distinct;
    if forall m :: m in d.tcp + d.udp ==> CanonicalPort(m) {
      forall pod, k, s | pod in pods && Counts(pod, nodeName, nses) && s in AnnotatedPorts(pod, k) ensures CanonicalPort(s) {
        assert s in PodPorts(pod, k);
        assert s in NodePorts(pods, nodeName, nses, k);
        assert k == TCP || k == UDP;
        assert s in d.tcp || s in d.udp;
      }
    }
    if forall pod :: pod in pods && Counts(pod, nodeName, nses) ==> EntriesCanonical(pod) {
      forall m | m in d.tcp + d.udp ensures CanonicalPort(m) {
        var k := if m in d.tcp then TCP else UDP;
        assert m in NodePorts(pods, nodeName, nses, k);
        var pod :| pod in pods && Counts(pod, nodeName, nses) && m in PodPorts(pod, k);
        PodPortIs(pod, k, m);
      }
    }
  }

  /** One to five digits without a leading zero, in 1..65535. */
  predicate PlainPort(s: string) { PortValue(s).Some? && s[0] != '0' }

  lemma PlainPortPrints(s: string)
    requires PortValue(s).Some?
    ensures Decimal(PortValue(s).value) == s <==> PlainPort(s)
  {
    DecimalRoundTrip(PortValue(s).value);
    if s[0] != '0' { ValueRoundTrip(s); }
  }

  /** Which admitted entries are canonical: plain ports, and ranges of plain ports with the lower one first.
      So "0080", "80-80" and "99999" are admitted and are not canonical. */
  lemma CanonicalEntryExactly(s: string)
    requires TenantPort(s)
    ensures CanonicalPort(s) <==>
            match FirstDash(s)
            case None => PlainPort(s)
            case Some(d) =>
              PlainPort(s[..d]) && PlainPort(s[d + 1..]) && PortValue(s[..d]).value < PortValue(s[d + 1..]).value
  {
    hide PortValue;
    EntryHasNoBlanks(s);
    match FirstDash(s)
    case None =>
      if PortValue(s).Some? { PlainPortPrints(s); }
    case Some(d) =>
      if PortValue(s[..d]).Some? && PortValue(s[d + 1..]).Some? {
        RangePrints(s, d);
      }
  }

  lemma EntryHasNoBlanks(s: string)
    requires TenantPort(s)
    ensures Trimmed(s) == s
  {
    var d := FirstDash(s);
    if d.Some? {
      assert s[0] == s[..d.value][0] && s[|s| - 1] == s[d.value + 1..][|s| - d.value - 2];
    }
    TrimOfTight(IsBlank, s);
  }

  lemma RangePrints(s: string, d: nat)
    requires FirstDash(s) == Some(d)
    requires PortValue(s[..d]).Some? && PortValue(s[d + 1..]).Some?
    ensures var lo, hi := PortValue(s[..d]).value, PortValue(s[d + 1..]).value;
      PortText(Ports(lo, hi)) == s <==> PlainPort(s[..d]) && PlainPort(s[d + 1..]) && lo != hi
  {
    var lo, hi := PortValue(s[..d]).value, PortValue(s[d + 1..]).value;
    PlainPortPrints(s[..d]);
    PlainPortPrints(s[d + 1..]);
    DecimalPort(lo);
    DecimalPort(hi);
    hide PortValue, PlainPort, Decimal, FirstDash;
    assert s == s[..d] + ['-'] + s[d + 1..];
    var printed := Decimal(lo) + ['-'] + Decimal(hi);
    FirstDashAt(Decimal(lo), Decimal(hi));
    if printed == s {
      assert printed[..d] == Decimal(lo) && printed[d + 1..] == Decimal(hi);
    }
    if lo == hi { assert s[d] == '-'; }
  }
}
