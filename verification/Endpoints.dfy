/**
 Protocol endpoints: what the descriptors declare, what a deployment binds, and what the engine accepts.
 */
module Endpoints {
  import opened Wrappers

  datatype Protocol =
    | Http | Redis | Smtp | Pop3 | Imap | Ssh | Ftp | Rdp | Telnet | Mysql | Postgresql | Smb | Ldap | Dns
    | Mongodb | Memcached | Snmp | Mqtt | Vnc

  datatype Transport = Tcp | Udp

  type Port = p: int | 0 <= p < 0x1_0000

  /** The ids the descriptors use, and any other text a request or a rule may hold. */
  datatype EndpointId = Main | DnsTcp | DnsUdp | Other(text: string)

  datatype Spec = Spec(id: EndpointId, transport: Transport, containerPort: Port, defaultHostPort: Port, required: bool)

  datatype Binding = Binding(endpointId: EndpointId, hostPort: Port)

  datatype Endpoint = Endpoint(id: EndpointId, transport: Transport, hostPort: Port, containerPort: Port)

  function WellKnownPort(protocol: Protocol): Port {
    match protocol
    case Http => 80
    case Redis => 6379
    case Smtp => 25
    case Pop3 => 110
    case Imap => 143
    case Ssh => 22
    case Ftp => 21
    case Rdp => 3389
    case Telnet => 23
    case Mysql => 3306
    case Postgresql => 5432
    case Smb => 445
    case Ldap => 389
    case Dns => 53
    case Mongodb => 27017
    case Memcached => 11211
    case Snmp => 161
    case Mqtt => 1883
    case Vnc => 5900
  }

  function Descriptor(protocol: Protocol): seq<Spec> {
    match protocol
    case Dns => [Spec(DnsTcp, Tcp, 53, 1053, true), Spec(DnsUdp, Udp, 53, 1053, true)]
    case Snmp => [Spec(Main, Udp, 161, 161, true)]
    case _ => [Spec(Main, Tcp, WellKnownPort(protocol), WellKnownPort(protocol), true)]
  }

  ghost predicate DistinctIds(specs: seq<Spec>) {
    forall i, j :: 0 <= i < j < |specs| ==> specs[i].id != specs[j].id
  }

  ghost predicate DistinctTransports(specs: seq<Spec>) {
    forall i, j :: 0 <= i < j < |specs| ==> specs[i].transport != specs[j].transport
  }

  lemma DescriptorsAreDistinct(protocol: Protocol)
    ensures DistinctIds(Descriptor(protocol)) && DistinctTransports(Descriptor(protocol))
  {
  }

  // ---------------------------------------------------------------------------
  // Deployment
  // ---------------------------------------------------------------------------

  function SpecById(specs: seq<Spec>, id: EndpointId): (r: Option<Spec>)
    ensures match r
            case None => forall s :: s in specs ==> s.id != id
            case Some(s) => s in specs && s.id == id
  {
    if specs == [] then None
    else if specs[0].id == id then Some(specs[0])
    else SpecById(specs[1..], id)
  }

  /** The endpoints a deployment binds, in descriptor order. */
  function Bound(specs: seq<Spec>, requested: map<EndpointId, Port>): seq<Endpoint> {
    if specs == [] then []
    else
      var rest := Bound(specs[1..], requested);
      if specs[0].id in requested
      then [Endpoint(specs[0].id, specs[0].transport, requested[specs[0].id], specs[0].containerPort)] + rest
      else rest
  }

  /** The binding list as a map, unless it holds port 0 or names an endpoint twice. */
  function Requested(bindings: seq<Binding>): Option<map<EndpointId, Port>> {
    if bindings == [] then Some(map[])
    else
      var init, last := Requested(bindings[..|bindings| - 1]), bindings[|bindings| - 1];
      if init.None? || last.hostPort == 0 || last.endpointId in init.value then None
      else Some(init.value[last.endpointId := last.hostPort])
  }

  ghost predicate AcceptsRequest(specs: seq<Spec>, requested: map<EndpointId, Port>) {
    && (forall id :: id in requested ==> SpecById(specs, id).Some?)
    && (forall s :: s in specs && s.required ==> s.id in requested)
  }

  /** The checks of a deployment request, in the source's order. */
  method BuildEndpoints(specs: seq<Spec>, bindings: seq<Binding>) returns (r: Option<seq<Endpoint>>)
    ensures r.Some? <==> Requested(bindings).Some? && AcceptsRequest(specs, Requested(bindings).value)
    ensures r.Some? ==> r.value == Bound(specs, Requested(bindings).value)
  {
    var requested: map<EndpointId, Port> := map[];
    for i := 0 to |bindings|
      invariant Requested(bindings[..i]) == Some(requested)
    {
      var binding := bindings[i];
      assert bindings[..i + 1][..i] == bindings[..i];
      if binding.hostPort == 0 || binding.endpointId in requested {
        RefusedStays(bindings, i + 1);
        return None;
      }
      requested := requested[binding.endpointId := binding.hostPort];
    }
    assert bindings[..|bindings|] == bindings;
    var unchecked := requested.Keys;
    while unchecked != {}
      invariant unchecked <= requested.Keys
      invariant forall id :: id in requested.Keys - unchecked ==> SpecById(specs, id).Some?
      decreases |unchecked|
    {
      var id :| id in unchecked;
      if SpecById(specs, id).None? {
        return None;
      }
      unchecked := unchecked - {id};
    }
    for i := 0 to |specs|
      invariant forall k :: 0 <= k < i && specs[k].required ==> specs[k].id in requested
    {
      if specs[i].required && specs[i].id !in requested {
        return None;
      }
    }
    return Some(Bound(specs, requested));
  }

  lemma {:induction false} RefusedStays(bindings: seq<Binding>, k: nat)
    requires k <= |bindings| && Requested(bindings[..k]).None?
    ensures Requested(bindings).None?
  {
    if k == |bindings| {
      assert bindings[..k] == bindings;
    } else {
      assert bindings[..|bindings| - 1][..k] == bindings[..k];
      RefusedStays(bindings[..|bindings| - 1], k);
    }
  }

  /** A binding list is taken exactly when no port is 0 and no endpoint is named twice, and then means each of its bindings. */
  lemma {:induction false} RequestedExactly(bindings: seq<Binding>, id: EndpointId, port: Port)
    ensures var r := Requested(bindings);
            && (r.Some? <==> ProperBindings(bindings))
            && (r.Some? ==> (id in r.value && r.value[id] == port <==> Binding(id, port) in bindings))
  {
    if bindings != [] {
      var k := |bindings| - 1;
      var init, last := bindings[..k], bindings[k];
      RequestedExactly(init, id, port);
      assert bindings == init + [last];
      if Requested(init).Some? {
        NamedBefore(init, last.endpointId);
      }
      if ProperBindings(bindings) {
        assert ProperBindings(init) by {
          assert forall i :: 0 <= i < k ==> init[i] == bindings[i];
        }
      }
    }
  }

  ghost predicate ProperBindings(bindings: seq<Binding>) {
    && (forall i :: 0 <= i < |bindings| ==> bindings[i].hostPort != 0)
    && (forall i, j :: 0 <= i < j < |bindings| ==> bindings[i].endpointId != bindings[j].endpointId)
  }

  lemma {:induction false} NamedBefore(bindings: seq<Binding>, id: EndpointId)
    requires Requested(bindings).Some?
    ensures id in Requested(bindings).value <==> exists i :: 0 <= i < |bindings| && bindings[i].endpointId == id
  {
    if bindings != [] {
      var k := |bindings| - 1;
      NamedBefore(bindings[..k], id);
      if exists i :: 0 <= i < |bindings| && bindings[i].endpointId == id {
        var i :| 0 <= i < |bindings| && bindings[i].endpointId == id;
        assert i < k ==> bindings[..k][i] == bindings[i];
      }
      if id in Requested(bindings[..k]).value {
        var i :| 0 <= i < k && bindings[..k][i].endpointId == id;
        assert bindings[i].endpointId == id;
      }
    }
  }

  /** Each bound endpoint is a declared one with the port asked for. */
  lemma {:induction false} BoundEndpoint(specs: seq<Spec>, requested: map<EndpointId, Port>, e: Endpoint)
    ensures e in Bound(specs, requested) <==>
            exists s :: s in specs && s.id in requested && e == Endpoint(s.id, s.transport, requested[s.id], s.containerPort)
  {
    if specs != [] {
      BoundEndpoint(specs[1..], requested, e);
      assert specs == [specs[0]] + specs[1..];
    }
  }

  ghost predicate DistinctEndpoints(endpoints: seq<Endpoint>) {
    && (forall i, j :: 0 <= i < j < |endpoints| ==> endpoints[i].id != endpoints[j].id)
    && (forall i, j :: 0 <= i < j < |endpoints| ==> endpoints[i].transport != endpoints[j].transport)
  }

  lemma {:induction false} BoundAreDistinct(specs: seq<Spec>, requested: map<EndpointId, Port>)
    requires DistinctIds(specs) && DistinctTransports(specs)
    ensures DistinctEndpoints(Bound(specs, requested))
  {
    if specs != [] {
      BoundAreDistinct(specs[1..], requested);
      forall e | e in Bound(specs[1..], requested)
        ensures e.id != specs[0].id && e.transport != specs[0].transport
      {
        BoundEndpoint(specs[1..], requested, e);
        var s :| s in specs[1..] && s.id == e.id && s.transport == e.transport;
        var k :| 0 <= k < |specs[1..]| && specs[1..][k] == s;
        assert specs[k + 1] == s;
      }
    }
  }

  // ---------------------------------------------------------------------------
  // The engine's own check
  // ---------------------------------------------------------------------------

  predicate Matches(specs: seq<Spec>, e: Endpoint) {
    var s := SpecById(specs, e.id);
    s.Some? && s.value.transport == e.transport && s.value.containerPort == e.containerPort
  }

  /** What the engine demands of its launch configuration. */
  ghost predicate Launchable(specs: seq<Spec>, endpoints: seq<Endpoint>) {
    && endpoints != []
    && (forall i, j :: 0 <= i < j < |endpoints| ==> endpoints[i].id != endpoints[j].id)
    && (forall e :: e in endpoints ==> Matches(specs, e))
    && (forall s :: s in specs && s.required ==> exists e :: e in endpoints && e.id == s.id)
  }

  method ValidatedEndpoints(specs: seq<Spec>, endpoints: seq<Endpoint>) returns (ok: bool)
    ensures ok <==> Launchable(specs, endpoints)
  {
    if endpoints == [] {
      return false;
    }
    var seen: set<EndpointId> := {};
    for i := 0 to |endpoints|
      invariant seen == set k | 0 <= k < i :: endpoints[k].id
      invariant forall k, j :: 0 <= k < j < i ==> endpoints[k].id != endpoints[j].id
      invariant forall k :: 0 <= k < i ==> Matches(specs, endpoints[k])
    {
      var e := endpoints[i];
      if e.id in seen {
        return false;
      }
      seen := seen + {e.id};
      var expected := SpecById(specs, e.id);
      if expected.None? || e.transport != expected.value.transport || e.containerPort != expected.value.containerPort {
        assert !Matches(specs, endpoints[i]);
        return false;
      }
    }
    for i := 0 to |specs|
      invariant forall k :: 0 <= k < i && specs[k].required ==> specs[k].id in seen
    {
      if specs[i].required && specs[i].id !in seen {
        assert specs[i] in specs && forall e :: e in endpoints ==> e.id != specs[i].id;
        return false;
      }
    }
    return true;
  }

  lemma DistinctFind(specs: seq<Spec>, s: Spec)
    requires DistinctIds(specs) && s in specs
    ensures SpecById(specs, s.id) == Some(s)
  {
    var found := SpecById(specs, s.id);
    assert found.Some?;
    var i :| 0 <= i < |specs| && specs[i] == s;
    var j :| 0 <= j < |specs| && specs[j] == found.value;
  }

  /** Whatever the API accepts for deployment, the engine accepts at launch. */
  lemma AcceptedIsLaunchable(protocol: Protocol, requested: map<EndpointId, Port>)
    requires AcceptsRequest(Descriptor(protocol), requested)
    ensures Launchable(Descriptor(protocol), Bound(Descriptor(protocol), requested))
    ensures forall id :: id in requested <==>
              exists e :: e in Bound(Descriptor(protocol), requested) && e.id == id && e.hostPort == requested[id]
  {
    var specs := Descriptor(protocol);
    var endpoints := Bound(specs, requested);
    DescriptorsAreDistinct(protocol);
    BoundAreDistinct(specs, requested);
    forall e | e in endpoints
      ensures Matches(specs, e) && e.id in requested && e.hostPort == requested[e.id]
    {
      BoundEndpoint(specs, requested, e);
      var s :| s in specs && s.id in requested && e == Endpoint(s.id, s.transport, requested[s.id], s.containerPort);
      DistinctFind(specs, s);
    }
    forall id | id in requested
      ensures exists e :: e in endpoints && e.id == id && e.hostPort == requested[id]
    {
      var s := SpecById(specs, id).value;
      var e := Endpoint(s.id, s.transport, requested[s.id], s.containerPort);
      BoundEndpoint(specs, requested, e);
      assert e in endpoints && e.id == id && e.hostPort == requested[id];
    }
    assert specs[0] in specs;
  }

  // ---------------------------------------------------------------------------
  // Rule packages
  // ---------------------------------------------------------------------------

  /** An endpoint as a rule package declares it; the numbers are signed 32-bit. */
  datatype Declared = Declared(id: EndpointId, transport: Transport, containerPort: int, defaultHostPort: int, required: bool)

  function DeclaredById(declared: seq<Declared>, id: EndpointId): (r: Option<Declared>)
    ensures match r
            case None => forall d :: d in declared ==> d.id != id
            case Some(d) => d in declared && d.id == id
  {
    if declared == [] then None
    else if declared[0].id == id then Some(declared[0])
    else DeclaredById(declared[1..], id)
  }

  predicate Agrees(d: Declared, s: Spec) {
    && d.id == s.id && d.transport == s.transport && d.containerPort == s.containerPort && d.required == s.required
    && 0 <= d.defaultHostPort < 0x1_0000
  }

  /** What the rule check finds: as many endpoints as expected, and for each expected one the first with its id agrees. */
  ghost predicate RuleMatches(declared: seq<Declared>, expected: seq<Spec>) {
    && |declared| == |expected|
    && forall s :: s in expected ==> DeclaredById(declared, s.id).Some? && Agrees(DeclaredById(declared, s.id).value, s)
  }

  method ValidateRuleEndpoints(declared: seq<Declared>, expected: seq<Spec>) returns (ok: bool)
    ensures ok <==> RuleMatches(declared, expected)
  {
    if |declared| != |expected| {
      return false;
    }
    for i := 0 to |expected|
      invariant forall k :: 0 <= k < i ==>
        DeclaredById(declared, expected[k].id).Some? && Agrees(DeclaredById(declared, expected[k].id).value, expected[k])
    {
      var actual := DeclaredById(declared, expected[i].id);
      if actual.None? || actual.value.transport != expected[i].transport
         || actual.value.containerPort != expected[i].containerPort || actual.value.required != expected[i].required
         || actual.value.defaultHostPort < 0 || actual.value.defaultHostPort >= 0x1_0000
      {
        assert expected[i] in expected;
        return false;
      }
    }
    return true;
  }

  function Ids(specs: seq<Spec>): multiset<EndpointId> {
    if specs == [] then multiset{} else multiset{specs[0].id} + Ids(specs[1..])
  }

  function DeclaredIds(declared: seq<Declared>): multiset<EndpointId> {
    if declared == [] then multiset{} else multiset{declared[0].id} + DeclaredIds(declared[1..])
  }

  /** A declaration list without its element at `k`. */
  function Without(declared: seq<Declared>, k: nat): seq<Declared>
    requires k < |declared|
  {
    declared[..k] + declared[k + 1..]
  }

  lemma {:induction false} DeclaredIdsWithout(declared: seq<Declared>, k: nat)
    requires k < |declared|
    ensures DeclaredIds(declared) == DeclaredIds(Without(declared, k)) + multiset{declared[k].id}
  {
    hide Without, DeclaredIds;
    DeclaredIdsHead(declared);
    if k == 0 {
      WithoutHead(declared);
    } else {
      DeclaredIdsWithout(declared[1..], k - 1);
      WithoutLater(declared, k);
      DeclaredIdsHead(Without(declared, k));
    }
  }

  lemma DeclaredIdsHead(declared: seq<Declared>)
    requires declared != []
    ensures DeclaredIds(declared) == multiset{declared[0].id} + DeclaredIds(declared[1..])
  {
  }

  lemma WithoutHead(declared: seq<Declared>)
    requires declared != []
    ensures Without(declared, 0) == declared[1..]
  {
  }

  lemma WithoutLater(declared: seq<Declared>, k: nat)
    requires 0 < k < |declared|
    ensures Without(declared, k) != [] && Without(declared, k)[0] == declared[0]
    ensures Without(declared, k)[1..] == Without(declared[1..], k - 1)
  {
    assert Without(declared, k) == [declared[0]] + Without(declared[1..], k - 1);
  }

  lemma WithoutHas(declared: seq<Declared>, k: nat, d: Declared)
    requires k < |declared| && d in declared && d != declared[k]
    ensures d in Without(declared, k)
  {
    var j :| 0 <= j < |declared| && declared[j] == d;
    assert Without(declared, k)[if j < k then j else j - 1] == d;
  }

  predicate AgreesSome(declared: seq<Declared>, s: Spec) {
    exists d :: d in declared && Agrees(d, s)
  }

  predicate SomeAgrees(d: Declared, expected: seq<Spec>) {
    exists s :: s in expected && Agrees(d, s)
  }

  lemma StillAgrees(declared: seq<Declared>, k: nat, s: Spec)
    requires k < |declared| && AgreesSome(declared, s) && declared[k].id != s.id
    ensures AgreesSome(Without(declared, k), s)
  {
    var d :| d in declared && Agrees(d, s);
    WithoutHas(declared, k, d);
  }

  lemma {:induction false} Pigeonhole(declared: seq<Declared>, expected: seq<Spec>)
    requires DistinctIds(expected) && |declared| == |expected|
    requires forall s :: s in expected ==> AgreesSome(declared, s)
    ensures DeclaredIds(declared) == Ids(expected)
    ensures forall d :: d in declared ==> SomeAgrees(d, expected)
    decreases |expected|
  {
    hide AgreesSome, SomeAgrees, Without, Agrees;
    if expected != [] {
      hide DeclaredIds;
      var s := expected[0];
      assert s in expected;
      var k := AgreeingIndex(declared, s);
      forall s' | s' in expected[1..]
        ensures AgreesSome(Without(declared, k), s')
      {
        assert s' in expected && s'.id != s.id;
        StillAgrees(declared, k, s');
      }
      WithoutSize(declared, k);
      Pigeonhole(Without(declared, k), expected[1..]);
      DeclaredIdsWithout(declared, k);
      forall d | d in declared
        ensures SomeAgrees(d, expected)
      {
        AgreesWithHeadOrTail(declared, k, d, expected);
      }
    }
  }

  lemma WithoutSize(declared: seq<Declared>, k: nat)
    requires k < |declared|
    ensures |Without(declared, k)| == |declared| - 1
  {
  }

  lemma AgreeingIndex(declared: seq<Declared>, s: Spec) returns (k: nat)
    requires AgreesSome(declared, s)
    ensures k < |declared| && Agrees(declared[k], s) && declared[k].id == s.id
  {
    var d :| d in declared && Agrees(d, s);
    k :| 0 <= k < |declared| && declared[k] == d;
  }

  lemma AgreesWithHeadOrTail(declared: seq<Declared>, k: nat, d: Declared, expected: seq<Spec>)
    requires k < |declared| && d in declared && expected != [] && Agrees(declared[k], expected[0])
    requires forall d' :: d' in Without(declared, k) ==> SomeAgrees(d', expected[1..])
    ensures SomeAgrees(d, expected)
  {
    if d == declared[k] {
      assert expected[0] in expected;
    } else {
      WithoutHas(declared, k, d);
      var s :| s in expected[1..] && Agrees(d, s);
      assert s in expected;
    }
  }

  /** The declaration is of some endpoint of the list, with its transport, container port and requirement. */
  predicate Declares(d: Declared, expected: seq<Spec>) {
    && 0 <= d.defaultHostPort <= 65535
    && exists s :: s in expected && s.id == d.id && s.transport == d.transport && s.containerPort == d.containerPort
                   && s.required == d.required
  }

  lemma AgreeingDeclares(d: Declared, expected: seq<Spec>)
    ensures SomeAgrees(d, expected) <==> Declares(d, expected)
  {
    if SomeAgrees(d, expected) {
      var s :| s in expected && Agrees(d, s);
      assert s.id == d.id;
    }
    if Declares(d, expected) {
      var s :| s in expected && s.id == d.id && s.transport == d.transport && s.containerPort == d.containerPort
               && s.required == d.required;
      assert Agrees(d, s);
    }
  }

  lemma {:induction false} DeclaredIdsMember(declared: seq<Declared>, id: EndpointId)
    ensures id in DeclaredIds(declared) <==> exists d :: d in declared && d.id == id
    ensures |DeclaredIds(declared)| == |declared|
  {
    if declared != [] {
      DeclaredIdsMember(declared[1..], id);
      assert declared == [declared[0]] + declared[1..];
    }
  }

  lemma {:induction false} IdsMember(specs: seq<Spec>, s: Spec)
    ensures s in specs ==> s.id in Ids(specs)
    ensures |Ids(specs)| == |specs|
  {
    if specs != [] {
      IdsMember(specs[1..], s);
      assert specs == [specs[0]] + specs[1..];
    }
  }

  lemma PermutationMatches(declared: seq<Declared>, expected: seq<Spec>, s: Spec)
    requires DistinctIds(expected) && s in expected
    requires DeclaredIds(declared) == Ids(expected) && forall d :: d in declared ==> Declares(d, expected)
    ensures DeclaredById(declared, s.id).Some? && Agrees(DeclaredById(declared, s.id).value, s)
  {
    hide DeclaredIds, Ids;
    IdsMember(expected, s);
    DeclaredIdsMember(declared, s.id);
    var d := DeclaredById(declared, s.id).value;
    assert Declares(d, expected);
  }

  /**
   A rule passes the check exactly when it declares the endpoints of its protocol, each once, in some order, each with
   its own transport, container port and requirement: equal length and every expected id found leave no room for
   another or a repeated one.
   */
  lemma ValidRuleIsPermutation(declared: seq<Declared>, protocol: Protocol)
    ensures RuleMatches(declared, Descriptor(protocol)) <==>
            DeclaredIds(declared) == Ids(Descriptor(protocol)) && forall d :: d in declared ==> Declares(d, Descriptor(protocol))
  {
    hide Descriptor, Declares, SomeAgrees, Agrees, DeclaredIds, Ids;
    var expected := Descriptor(protocol);
    DescriptorsAreDistinct(protocol);
    if RuleMatches(declared, expected) {
      forall s | s in expected
        ensures AgreesSome(declared, s)
      {
        assert DeclaredById(declared, s.id).value in declared;
      }
      Pigeonhole(declared, expected);
      forall d | d in declared
        ensures Declares(d, expected)
      {
        AgreeingDeclares(d, expected);
      }
    } else if DeclaredIds(declared) == Ids(expected) && forall d :: d in declared ==> Declares(d, expected) {
      forall s | s in expected
        ensures DeclaredById(declared, s.id).Some? && Agrees(DeclaredById(declared, s.id).value, s)
      {
        PermutationMatches(declared, expected, s);
      }
      SameSize(declared, expected);
    }
  }

  lemma SameSize(declared: seq<Declared>, expected: seq<Spec>)
    requires DeclaredIds(declared) == Ids(expected)
    ensures |declared| == |expected|
  {
    if declared != [] {
      DeclaredIdsMember(declared, declared[0].id);
    }
    if expected != [] {
      IdsMember(expected, expected[0]);
    }
  }

  /** The defaults never collide: instances of all protocols can run side by side on them. */
  lemma DefaultsAreDistinct(p: Protocol, q: Protocol, s: Spec, r: Spec)
    requires s in Descriptor(p) && r in Descriptor(q) && s.transport == r.transport
    requires s.defaultHostPort == r.defaultHostPort || s.containerPort == r.containerPort
    ensures p == q && s == r
  {
  }
}
