/** What a service or client owns while it lives, and what its creation gives back when it
    fails: `rmw_create_client`, `rmw_create_service` and their destructors over a ledger of
    allocations, native entities, attachments and graph registrations. */
module EndpointLifecycle {
  import opened Common
  import opened Resources

  /** The answer of every call that may fail, in the order the calls are made. */
  datatype Outcomes = Outcomes(
    introspection: bool,
    requestTopic: bool, responseTopic: bool,
    requestSupport: bool, responseSupport: bool,
    requestTypeName: bool, responseTypeName: bool,
    bindRequest: bool, bindResponse: bool,
    qos: bool, first: bool, second: bool, attach: bool,
    registerRequest: bool, registerResponse: bool,
    handle: bool, implementation: bool, name: bool)
  {
    predicate TypesOk() {
      && requestTopic && responseTopic
      && (introspection ==> requestSupport && responseSupport && bindRequest && bindResponse)
    }

    /** For a service, whose reader comes first. */
    predicate LosesQos() { TypesOk() && first && !attach && qos }

    predicate RegistrationsOk() { introspection ==> registerRequest && registerResponse }

    predicate Succeeds() {
      TypesOk() && first && second && attach && RegistrationsOk() && handle && implementation && name
    }
  }

  /** Every call that is needed is needed: with any one of them failing, creation fails; the
      QoS and the type names make no difference. Only with introspection are the type supports,
      their binding and their registration needed. */
  lemma EveryNeededCallCounts(o: Outcomes)
    requires o.Succeeds()
    ensures !o.(requestTopic := false).Succeeds() && !o.(responseTopic := false).Succeeds()
    ensures !o.(first := false).Succeeds() && !o.(second := false).Succeeds() && !o.(attach := false).Succeeds()
    ensures !o.(handle := false).Succeeds() && !o.(implementation := false).Succeeds() && !o.(name := false).Succeeds()
    ensures o.(qos := false).Succeeds() && o.(requestTypeName := false).Succeeds()
    ensures o.(responseTypeName := false).Succeeds()
  {
  }

  lemma EveryTypeCallCounts(o: Outcomes)
    requires o.Succeeds()
    ensures o.introspection <==> !o.(requestSupport := false).Succeeds()
    ensures o.introspection <==> !o.(responseSupport := false).Succeeds()
    ensures o.introspection <==> !o.(bindRequest := false).Succeeds()
    ensures o.introspection <==> !o.(bindResponse := false).Succeeds()
    ensures o.introspection <==> !o.(registerRequest := false).Succeeds()
    ensures o.introspection <==> !o.(registerResponse := false).Succeeds()
  {
  }

  /** And when all needed calls answer well, creation succeeds. */
  lemma NothingElseFails(o: Outcomes)
    requires o.requestTopic && o.responseTopic && o.first && o.second && o.attach
    requires o.handle && o.implementation && o.name
    requires o.introspection ==> o.requestSupport && o.responseSupport && o.bindRequest && o.bindResponse
                                 && o.registerRequest && o.registerResponse
    ensures o.Succeeds()
    ensures o.qos <==> o.(attach := false).LosesQos()
    ensures !o.LosesQos() && !o.(attach := false, first := false).LosesQos()
  {
  }

  // ------------------------------------------------------- topics and types

  datatype Types = Types(
    requestTopic: Option<Resource>, responseTopic: Option<Resource>,
    requestSupport: Option<Resource>, responseSupport: Option<Resource>,
    requestTypeName: Option<Resource>, responseTypeName: Option<Resource>)
  {
    function Owned(): set<Resource> {
      Held(requestTopic) + Held(responseTopic) + Held(requestSupport) + Held(responseSupport)
      + Held(requestTypeName) + Held(responseTypeName)
    }

    ghost predicate Distinct() {
      Held(requestTopic) !! Held(responseTopic) !! Held(requestSupport) !! Held(responseSupport)
        !! Held(requestTypeName) !! Held(responseTypeName)
    }

    ghost predicate OnlyMemory() { forall r :: r in Owned() ==> r.kind == Memory }
  }

  method FreeTypes(l: Ledger, t: Types)
    requires l.Valid() && t.Distinct() && t.Owned() <= l.live
    modifies l
    ensures l.Valid() && l.next == old(l.next) && l.live == old(l.live) - t.Owned()
  {
    l.Release(t.requestSupport);
    l.Release(t.responseSupport);
    l.Release(t.requestTypeName);
    l.Release(t.responseTypeName);
    l.Release(t.requestTopic);
    l.Release(t.responseTopic);
  }

  /** Everything owned came after the state whose next id was `from`. */
  ghost predicate Newer(owned: set<Resource>, from: nat) { forall r :: r in owned ==> from <= r.id }

  method CreateTypes(l: Ledger, o: Outcomes) returns (t: Option<Types>)
    requires l.Valid()
    modifies l
    ensures l.Valid() && l.next >= old(l.next)
    ensures t.Some? <==> o.TypesOk()
    ensures t.None? ==> l.live == old(l.live)
    ensures t.Some? ==> t.value.Distinct() && t.value.OnlyMemory() && l.live == old(l.live) + t.value.Owned()
    ensures t.Some? ==> Newer(t.value.Owned(), old(l.next))
  {
    var requestTopic := l.Acquire(Memory, o.requestTopic);
    var responseTopic := l.Acquire(Memory, o.responseTopic);
    if requestTopic.None? || responseTopic.None? {
      l.Release(requestTopic);
      l.Release(responseTopic);
      return None;
    }
    var types := Types(requestTopic, responseTopic, None, None, None, None);
    if o.introspection {
      var requestSupport := l.Acquire(Memory, o.requestSupport);
      var responseSupport := l.Acquire(Memory, o.responseSupport);
      types := types.(requestSupport := requestSupport, responseSupport := responseSupport);
      if requestSupport.None? || responseSupport.None? {
        FreeTypes(l, types);
        return None;
      }
      var requestTypeName := l.Acquire(Memory, o.requestTypeName);
      var responseTypeName := l.Acquire(Memory, o.responseTypeName);
      types := types.(requestTypeName := requestTypeName, responseTypeName := responseTypeName);
      if !o.bindRequest || !o.bindResponse {
        FreeTypes(l, types);
        return None;
      }
    }
    return Some(types);
  }

  // -------------------------------------------------------------- endpoints

  /** A writer and a reader; the reader is attached to the context. */
  datatype Ends = Ends(writer: Resource, reader: Resource) {
    function Owned(): set<Resource> { {writer, reader, Resource(Attachment, reader.id)} }

    predicate Proper() { writer.kind == Writer && reader.kind == Reader && writer.id != reader.id }
  }

  /** The client creates its writer first and gives the QoS back before it attaches. */
  method CreateClientEnds(l: Ledger, o: Outcomes) returns (e: Option<Ends>)
    requires l.Valid()
    modifies l
    ensures l.Valid() && l.next >= old(l.next)
    ensures e.Some? <==> o.first && o.second && o.attach
    ensures e.None? ==> l.live == old(l.live)
    ensures e.Some? ==> e.value.Proper() && l.live == old(l.live) + e.value.Owned()
    ensures e.Some? ==> Newer(e.value.Owned(), old(l.next))
  {
    var qos := l.Acquire(Qos, o.qos);
    var writer := l.Acquire(Writer, o.first);
    if writer.None? {
      l.Release(qos);
      return None;
    }
    var reader := l.Acquire(Reader, o.second);
    l.Release(qos);
    if reader.None? {
      l.Release(writer);
      return None;
    }
    if !o.attach {
      l.DestroyReader(reader.value);
      l.Release(writer);
      return None;
    }
    l.Tie(Attachment, reader.value);
    return Some(Ends(writer.value, reader.value));
  }

  /** The service attaches while it still holds the QoS, and forgets it if that fails. */
  method CreateServiceEnds(l: Ledger, o: Outcomes) returns (e: Option<Ends>, ghost lost: Option<Resource>)
    requires l.Valid()
    modifies l
    ensures l.Valid() && l.next >= old(l.next)
    ensures e.Some? <==> o.first && o.second && o.attach
    ensures e.None? ==> l.live == old(l.live) + Held(lost)
    ensures lost == if o.first && !o.attach && o.qos then Some(Resource(Qos, old(l.next))) else None
    ensures e.Some? ==> e.value.Proper() && l.live == old(l.live) + e.value.Owned()
    ensures e.Some? ==> Newer(e.value.Owned(), old(l.next))
  {
    var qos := l.Acquire(Qos, o.qos);
    var reader := l.Acquire(Reader, o.first);
    if reader.None? {
      l.Release(qos);
      return None, None;
    }
    if !o.attach {
      l.DestroyReader(reader.value);
      return None, qos;
    }
    l.Tie(Attachment, reader.value);
    var writer := l.Acquire(Writer, o.second);
    l.Release(qos);
    if writer.None? {
      l.DestroyReader(reader.value);
      return None, None;
    }
    return Some(Ends(writer.value, reader.value)), None;
  }

  // ---------------------------------------------------------- whole objects

  function Registrations(e: Ends): set<Resource> {
    {Resource(Registration, e.writer.id), Resource(Registration, e.reader.id)}
  }

  /** A live service or client, registered in the graph when its types are known. */
  datatype Endpoint = Endpoint(
    client: bool, types: Types, ends: Ends, registered: bool,
    handle: Resource, implementation: Resource, name: Resource)
  {
    function Memories(): set<Resource> { types.Owned() + {handle, implementation, name} }

    function Natives(): set<Resource> { ends.Owned() + if registered then Registrations(ends) else {} }

    function Owned(): set<Resource> { Memories() + Natives() }

    ghost predicate Distinct() {
      && types.Distinct() && ends.Proper()
      && types.Owned() !! {handle} !! {implementation} !! {name}
      && Memories() !! Natives()
    }
  }

  /** Unregister what was registered, the response endpoint before the request endpoint. */
  method Unregister(l: Ledger, registered: bool, request: Resource, response: Resource)
    requires l.Valid() && request.id != response.id
    requires registered ==> {Resource(Registration, request.id), Resource(Registration, response.id)} <= l.live
    modifies l
    ensures l.Valid() && l.next == old(l.next)
    ensures l.live == old(l.live) - if registered
            then {Resource(Registration, request.id), Resource(Registration, response.id)} else {}
  {
    if registered {
      l.Release(Some(Resource(Registration, response.id)));
      l.Release(Some(Resource(Registration, request.id)));
    }
  }

  /** Register both endpoints, or neither. */
  method Register(l: Ledger, o: Outcomes, request: Resource, response: Resource) returns (ok: bool)
    requires l.Valid() && {request, response} <= l.live && request.id != response.id
    requires {Resource(Registration, request.id), Resource(Registration, response.id)} !! l.live
    modifies l
    ensures l.Valid() && l.next == old(l.next)
    ensures ok <==> o.RegistrationsOk()
    ensures l.live == old(l.live) + if ok && o.introspection
            then {Resource(Registration, request.id), Resource(Registration, response.id)} else {}
  {
    if o.introspection {
      if !o.registerRequest { return false; }
      l.Tie(Registration, request);
      if !o.registerResponse {
        l.Release(Some(Resource(Registration, request.id)));
        return false;
      }
      l.Tie(Registration, response);
    }
    return true;
  }

  /** The three last allocations, each undone when a later one fails. */
  method AllocateBodies(l: Ledger, o: Outcomes)
    returns (handle: Option<Resource>, implementation: Option<Resource>, name: Option<Resource>)
    requires l.Valid()
    modifies l
    ensures l.Valid() && l.next >= old(l.next)
    ensures name.Some? <==> o.handle && o.implementation && o.name
    ensures name.None? ==> l.live == old(l.live)
    ensures name.Some? ==> handle.Some? && implementation.Some?
                           && l.live == old(l.live) + {handle.value, implementation.value, name.value}
    ensures name.Some? ==> old(l.next) <= handle.value.id < implementation.value.id < name.value.id
                           && handle.value.kind == implementation.value.kind == name.value.kind == Memory
  {
    handle, implementation, name := None, None, None;
    handle := l.Acquire(Memory, o.handle);
    if handle.None? { return; }
    implementation := l.Acquire(Memory, o.implementation);
    if implementation.None? {
      l.Release(handle);
      return;
    }
    name := l.Acquire(Memory, o.name);
    if name.None? {
      l.Release(implementation);
      l.Release(handle);
    }
  }

  /** Registration and allocation on top of types and endpoints that are already there. */
  method Complete(l: Ledger, o: Outcomes, t: Types, e: Ends, client: bool) returns (x: Option<Endpoint>)
    requires l.Valid() && t.Distinct() && t.OnlyMemory() && e.Proper()
    requires t.Owned() + e.Owned() <= l.live && Registrations(e) !! l.live
    modifies l
    ensures l.Valid() && l.next >= old(l.next)
    ensures x.Some? <==> o.RegistrationsOk() && o.handle && o.implementation && o.name
    ensures x.None? ==> l.live == old(l.live)
    ensures x.Some? ==> x.value.Distinct() && x.value.types == t && x.value.ends == e
    ensures x.Some? ==> l.live == old(l.live) + x.value.Owned()
    ensures x.Some? ==> {x.value.handle, x.value.implementation, x.value.name} !! old(l.live)
  {
    var request, response := if client then e.writer else e.reader, if client then e.reader else e.writer;
    var ok := Register(l, o, request, response);
    if !ok { return None; }
    var handle, implementation, name := AllocateBodies(l, o);
    if name.None? {
      Unregister(l, o.introspection, request, response);
      return None;
    }
    return Some(Endpoint(client, t, e, o.introspection, handle.value, implementation.value, name.value));
  }

  method DestroyEnds(l: Ledger, e: Ends, client: bool)
    requires l.Valid() && e.Proper() && e.Owned() <= l.live
    modifies l
    ensures l.Valid() && l.next == old(l.next) && l.live == old(l.live) - e.Owned()
  {
    if client {
      l.DestroyReader(e.reader);
      l.Release(Some(e.writer));
    } else {
      l.Release(Some(e.writer));
      l.DestroyReader(e.reader);
    }
  }

  /** `rmw_create_client`: all or nothing, whichever call fails. */
  method CreateClient(l: Ledger, o: Outcomes) returns (x: Option<Endpoint>)
    requires l.Valid()
    modifies l
    ensures l.Valid()
    ensures x.Some? <==> o.Succeeds()
    ensures x.None? ==> l.live == old(l.live)
    ensures x.Some? ==> x.value.Distinct() && x.value.Owned() !! old(l.live)
                        && l.live == old(l.live) + x.value.Owned()
  {
    var t := CreateTypes(l, o);
    if t.None? { return None; }
    var e := CreateClientEnds(l, o);
    if e.None? {
      FreeTypes(l, t.value);
      return None;
    }
    x := Complete(l, o, t.value, e.value, true);
    if x.None? {
      DestroyEnds(l, e.value, true);
      FreeTypes(l, t.value);
    }
  }

  /** `rmw_create_service`: the same, except that a failed attachment loses the QoS. */
  method CreateService(l: Ledger, o: Outcomes) returns (x: Option<Endpoint>, ghost lost: Option<Resource>)
    requires l.Valid()
    modifies l
    ensures l.Valid()
    ensures x.Some? <==> o.Succeeds()
    ensures x.None? ==> l.live == old(l.live) + Held(lost)
    ensures lost.Some? <==> o.LosesQos()
    ensures lost.Some? ==> lost.value.kind == Qos && lost.value !in old(l.live)
    ensures x.Some? ==> x.value.Distinct() && x.value.Owned() !! old(l.live)
                        && l.live == old(l.live) + x.value.Owned()
  {
    lost := None;
    var t := CreateTypes(l, o);
    if t.None? { return None, None; }
    var e;
    e, lost := CreateServiceEnds(l, o);
    if e.None? {
      FreeTypes(l, t.value);
      return None, lost;
    }
    x := Complete(l, o, t.value, e.value, false);
    if x.None? {
      DestroyEnds(l, e.value, false);
      FreeTypes(l, t.value);
    }
  }

  /** `rmw_destroy_client` and `rmw_destroy_service`. With the context gone, only memory
      can be given back. */
  method Destroy(l: Ledger, x: Endpoint, hasContext: bool)
    requires l.Valid() && x.Distinct() && x.Owned() <= l.live
    modifies l
    ensures l.Valid() && l.live == old(l.live) - if hasContext then x.Owned() else x.Memories()
  {
    if hasContext {
      var request, response := if x.client then x.ends.writer else x.ends.reader,
                               if x.client then x.ends.reader else x.ends.writer;
      Unregister(l, x.registered, request, response);
      DestroyEnds(l, x.ends, x.client);
    }
    FreeTypes(l, x.types);
    l.Release(Some(x.name));
    l.Release(Some(x.implementation));
    l.Release(Some(x.handle));
  }

  // ------------------------------------------------------------------- runs

  datatype Call = Create(client: bool, o: Outcomes) | DestroyAt(index: nat)

  function Loss(c: Call): nat { if c.Create? && !c.client && c.o.LosesQos() then 1 else 0 }

  /** How many QoS objects the calls lose. */
  function Losses(calls: seq<Call>): nat {
    if calls == [] then 0 else Losses(calls[..|calls| - 1]) + Loss(calls[|calls| - 1])
  }

  /** `os` lists what each of `xs` owns, and no two own the same thing. */
  ghost predicate Owns(x: Endpoint, o: set<Resource>) { x.Distinct() && x.Owned() == o }

  ghost predicate Linked(xs: seq<Endpoint>, os: seq<set<Resource>>) {
    |xs| == |os| && forall i :: 0 <= i < |xs| ==> Owns(xs[i], os[i])
  }

  ghost predicate Apart(os: seq<set<Resource>>) {
    forall i, j :: 0 <= i < j < |os| ==> os[i] !! os[j]
  }

  ghost function Union(os: seq<set<Resource>>): set<Resource> {
    set i, r | 0 <= i < |os| && r in os[i] :: r
  }

  lemma UnionSnoc(os: seq<set<Resource>>, o: set<Resource>)
    requires Apart(os) && o !! Union(os)
    ensures Union(os + [o]) == Union(os) + o && Apart(os + [o])
  {
    var ys := os + [o];
    forall r | r in Union(os) + o ensures r in Union(ys) {
      if r in o {
        assert r in ys[|os|];
      } else {
        var k :| 0 <= k < |os| && r in os[k];
        assert r in ys[k];
      }
    }
    forall i | 0 <= i < |os| ensures os[i] !! o {
      assert os[i] <= Union(os);
    }
  }

  lemma UnionWithout(os: seq<set<Resource>>, i: nat)
    requires i < |os| && Apart(os)
    ensures var ys := os[..i] + os[i + 1..]; Apart(ys) && Union(ys) == Union(os) - os[i]
    ensures os[i] <= Union(os)
  {
    var ys := os[..i] + os[i + 1..];
    forall r | r in Union(os) - os[i] ensures r in Union(ys) {
      var k :| 0 <= k < |os| && r in os[k];
      assert r in ys[if k < i then k else k - 1];
    }
    forall r | r in Union(ys) ensures r in Union(os) - os[i] {
      var k :| 0 <= k < |ys| && r in ys[k];
      var j := if k < i then k else k + 1;
      assert r in os[j] && os[i] !! os[j];
    }
  }

  /** What is alive: what was before, what the live objects own, and what was lost. */
  ghost predicate Balanced(live: set<Resource>, base: set<Resource>, os: seq<set<Resource>>, lost: set<Resource>) {
    && live == base + Union(os) + lost
    && base !! Union(os) !! lost
    && Apart(os)
  }

  lemma BalancedAdd(live: set<Resource>, base: set<Resource>, os: seq<set<Resource>>, lost: set<Resource>,
                    o: set<Resource>)
    requires Balanced(live, base, os, lost) && o !! live
    ensures Balanced(live + o, base, os + [o], lost)
  {
    UnionSnoc(os, o);
  }

  lemma BalancedDrop(live: set<Resource>, base: set<Resource>, os: seq<set<Resource>>, lost: set<Resource>, i: nat)
    requires Balanced(live, base, os, lost) && i < |os|
    ensures os[i] <= live && Balanced(live - os[i], base, os[..i] + os[i + 1..], lost)
  {
    UnionWithout(os, i);
  }

  lemma BalancedLose(live: set<Resource>, base: set<Resource>, os: seq<set<Resource>>, lost: set<Resource>, r: Resource)
    requires Balanced(live, base, os, lost) && r !in live
    ensures r !in lost && Balanced(live + {r}, base, os, lost + {r})
  {
  }

  method CreateNext(l: Ledger, c: Call, xs: seq<Endpoint>, ghost os: seq<set<Resource>>,
                    ghost base: set<Resource>, ghost lost: set<Resource>)
    returns (xs': seq<Endpoint>, ghost os': seq<set<Resource>>, ghost q: Option<Resource>)
    requires c.Create? && l.Valid() && Linked(xs, os) && Balanced(l.live, base, os, lost)
    modifies l
    ensures l.Valid() && Linked(xs', os') && Balanced(l.live, base, os', lost + Held(q))
    ensures q.Some? <==> Loss(c) == 1
    ensures q.Some? ==> q.value.kind == Qos && q.value !in lost
  {
    var x;
    q := None;
    ghost var live := l.live;
    if c.client { x := CreateClient(l, c.o); } else { x, q := CreateService(l, c.o); }
    xs', os' := xs, os;
    if x.Some? {
      ghost var o := x.value.Owned();
      BalancedAdd(live, base, os, lost, o);
      assert Owns(x.value, o);
      xs', os' := xs + [x.value], os + [o];
      assert lost + Held(q) == lost;
    } else if q.Some? {
      BalancedLose(live, base, os, lost, q.value);
    } else {
      assert lost + Held(q) == lost;
    }
  }

  lemma LinkedWithout(xs: seq<Endpoint>, os: seq<set<Resource>>, i: nat)
    requires Linked(xs, os) && i < |xs|
    ensures Owns(xs[i], os[i]) && Linked(xs[..i] + xs[i + 1..], os[..i] + os[i + 1..])
  {
  }

  method DestroyNext(l: Ledger, i: nat, xs: seq<Endpoint>, ghost os: seq<set<Resource>>,
                     ghost base: set<Resource>, ghost lost: set<Resource>)
    returns (xs': seq<Endpoint>, ghost os': seq<set<Resource>>)
    requires i < |xs| && l.Valid() && Linked(xs, os) && Balanced(l.live, base, os, lost)
    modifies l
    ensures l.Valid() && Linked(xs', os') && Balanced(l.live, base, os', lost)
  {
    BalancedDrop(l.live, base, os, lost, i);
    LinkedWithout(xs, os, i);
    Destroy(l, xs[i], true);
    xs', os' := xs[..i] + xs[i + 1..], os[..i] + os[i + 1..];
  }

  lemma LossesStep(calls: seq<Call>, k: nat)
    requires k < |calls|
    ensures Losses(calls[..k + 1]) == Losses(calls[..k]) + Loss(calls[k])
  {
    assert calls[..k + 1][..k] == calls[..k];
  }

  lemma CountLost(lost: set<Resource>, q: Option<Resource>)
    requires q.Some? ==> q.value !in lost
    ensures |lost + Held(q)| == |lost| + if q.Some? then 1 else 0
    ensures q.None? ==> lost + Held(q) == lost
  {
  }

  /** One call of either kind. */
  method ProcessNext(l: Ledger, c: Call, xs: seq<Endpoint>, ghost os: seq<set<Resource>>,
                     ghost base: set<Resource>, ghost lost: set<Resource>)
    returns (xs': seq<Endpoint>, ghost os': seq<set<Resource>>, ghost lost': set<Resource>)
    requires l.Valid() && Linked(xs, os) && Balanced(l.live, base, os, lost) && OnlyQos(lost)
    modifies l
    ensures l.Valid() && Linked(xs', os') && Balanced(l.live, base, os', lost') && OnlyQos(lost')
    ensures |lost'| == |lost| + Loss(c)
  {
    xs', os' := xs, os;
    ghost var q := None;
    if c.Create? {
      xs', os', q := CreateNext(l, c, xs, os, base, lost);
    } else if c.index < |xs| {
      xs', os' := DestroyNext(l, c.index, xs, os, base, lost);
    }
    CountLost(lost, q);
    lost' := lost + Held(q);
  }

  ghost predicate OnlyQos(lost: set<Resource>) { forall r :: r in lost ==> r.kind == Qos }

  /** After any sequence of create and destroy calls on a live context, what is alive is
      what was alive before, what the live services and clients own, and one QoS for every
      service creation whose attachment failed. */
  method Process(l: Ledger, calls: seq<Call>)
    returns (xs: seq<Endpoint>, ghost os: seq<set<Resource>>, ghost lost: set<Resource>)
    requires l.Valid()
    modifies l
    ensures l.Valid() && Linked(xs, os) && Balanced(l.live, old(l.live), os, lost)
    ensures |lost| == Losses(calls) && OnlyQos(lost)
  {
    ghost var base := l.live;
    xs, os, lost := [], [], {};
    StartsBalanced(base);
    for k := 0 to |calls|
      invariant l.Valid() && Linked(xs, os) && Balanced(l.live, base, os, lost)
      invariant |lost| == Losses(calls[..k]) && OnlyQos(lost)
    {
      LossesStep(calls, k);
      xs, os, lost := ProcessNext(l, calls[k], xs, os, base, lost);
    }
    assert calls[..|calls|] == calls;
  }

  lemma StartsBalanced(base: set<Resource>)
    ensures Balanced(base, base, [], {}) && Linked([], [])
  {
  }
}
