/** Service availability. Creating and destroying services and clients moves the reader
    and writer counts of their topics in the graph cache; a client asks for its service
    by looking at those counts. */
module ServiceGraph {
  import opened Common
  import opened ServiceNames

  /** `TopicState`: the endpoints counted on a topic whose type is bound. */
  datatype Topic = Topic(writers: nat, readers: nat)

  type Graph = map<string, Topic>

  // ------------------------------------------------------------ graph cache

  function SaturatingInc(n: nat): nat { if n >= UINT32_MAX then UINT32_MAX else n + 1 }

  /** `register_topic_type`: only bound topics are counted at all. */
  function Bind(g: Graph, t: string): Graph { if t in g then g else g[t := Topic(0, 0)] }

  function AddReader(g: Graph, t: string): Graph {
    if t in g then g[t := g[t].(readers := SaturatingInc(g[t].readers))] else g
  }

  function DropReader(g: Graph, t: string): Graph {
    if t in g && g[t].readers > 0 then g[t := g[t].(readers := g[t].readers - 1)] else g
  }

  function AddWriter(g: Graph, t: string): Graph {
    if t in g then g[t := g[t].(writers := SaturatingInc(g[t].writers))] else g
  }

  function DropWriter(g: Graph, t: string): Graph {
    if t in g && g[t].writers > 0 then g[t := g[t].(writers := g[t].writers - 1)] else g
  }

  // ------------------------------------------------------------- operations

  /** How far a create call gets: type binding of either topic, its first endpoint, its
      second endpoint, attaching its reader, anything after that, or all the way. */
  datatype Outcome =
    | NothingDone | FirstBindOnly | FirstEndpointFails | SecondEndpointFails
    | AttachFails | LaterStepFails | Succeeds

  /** `rmw_create_service`. The request reader is created and attached before the response
      writer; what was created is destroyed again on failure. Topics are bound to a type
      only when introspection is available. */
  function CreateService(g: Graph, name: string, introspection: bool, o: Outcome): Graph {
    var rq, rr := ServiceTopic(name, Rq), ServiceTopic(name, Rr);
    if o == NothingDone then g else
      var g1 := if introspection then Bind(g, rq) else g;
      if o == FirstBindOnly then g1 else
        var g2 := if introspection then Bind(g1, rr) else g1;
        if o == FirstEndpointFails then g2 else
          var g3 := AddReader(g2, rq);
          if o == AttachFails || o == SecondEndpointFails then DropReader(g3, rq) else
            var g4 := AddWriter(g3, rr);
            if o == LaterStepFails then DropReader(DropWriter(g4, rr), rq) else g4
  }

  /** `rmw_create_client`: the request writer first, then the response reader. */
  function CreateClient(g: Graph, name: string, introspection: bool, o: Outcome): Graph {
    var rq, rr := ServiceTopic(name, Rq), ServiceTopic(name, Rr);
    if o == NothingDone then g else
      var g1 := if introspection then Bind(g, rq) else g;
      if o == FirstBindOnly then g1 else
        var g2 := if introspection then Bind(g1, rr) else g1;
        if o == FirstEndpointFails then g2 else
          var g3 := AddWriter(g2, rq);
          if o == SecondEndpointFails then DropWriter(g3, rq) else
            var g4 := AddReader(g3, rr);
            if o == AttachFails || o == LaterStepFails then DropWriter(DropReader(g4, rr), rq) else g4
  }

  function DestroyService(g: Graph, name: string): Graph {
    DropReader(DropWriter(g, ServiceTopic(name, Rr)), ServiceTopic(name, Rq))
  }

  function DestroyClient(g: Graph, name: string): Graph {
    DropWriter(DropReader(g, ServiceTopic(name, Rr)), ServiceTopic(name, Rq))
  }

  // ------------------------------------------------------------------- runs

  datatype Event =
    | CreateServiceCall(name: string, introspection: bool, o: Outcome)
    | CreateClientCall(name: string, introspection: bool, o: Outcome)
    | DestroyServiceCall(name: string)
    | DestroyClientCall(name: string)

  /** The graph, and how many live services and clients there are of each name. */
  datatype State = State(g: Graph, services: multiset<string>, clients: multiset<string>)

  const INITIAL := State(map[], multiset{}, multiset{})

  /** Destroying needs a live one. The graph counts in 32 bits, so it can follow at most
      2^32 - 1 live services and as many clients of one name. */
  predicate Possible(st: State, e: Event) {
    match e
    case CreateServiceCall(name, _, _) => st.services[name] < UINT32_MAX
    case CreateClientCall(name, _, _) => st.clients[name] < UINT32_MAX
    case DestroyServiceCall(name) => name in st.services
    case DestroyClientCall(name) => name in st.clients
  }

  function Effect(st: State, e: Event): State {
    match e
    case CreateServiceCall(name, i, o) =>
      State(CreateService(st.g, name, i, o),
            if o == Succeeds then st.services + multiset{name} else st.services, st.clients)
    case CreateClientCall(name, i, o) =>
      State(CreateClient(st.g, name, i, o), st.services,
            if o == Succeeds then st.clients + multiset{name} else st.clients)
    case DestroyServiceCall(name) =>
      State(DestroyService(st.g, name), st.services - multiset{name}, st.clients)
    case DestroyClientCall(name) =>
      State(DestroyClient(st.g, name), st.services, st.clients - multiset{name})
  }

  /** The state a run ends in, or None when some event was not possible. */
  function Run(events: seq<Event>): Option<State> {
    if events == [] then Some(INITIAL) else
      match Run(events[..|events| - 1])
      case None => None
      case Some(st) =>
        if Possible(st, events[|events| - 1]) then Some(Effect(st, events[|events| - 1])) else None
  }

  // -------------------------------------------------------------- invariant

  function Count(g: Graph, t: string): Topic { if t in g then g[t] else Topic(0, 0) }

  predicate Bound(g: Graph, name: string) { ServiceTopic(name, Rq) in g && ServiceTopic(name, Rr) in g }

  /** Each of the `s` services of `name` is counted on both topics. */
  predicate ServiceCounts(g: Graph, name: string, s: nat) {
    && Count(g, ServiceTopic(name, Rq)).readers == s <= UINT32_MAX
    && Count(g, ServiceTopic(name, Rr)).writers == s
  }

  /** Each of the `c` clients of `name` is counted on both topics, at the other ends. */
  predicate ClientCounts(g: Graph, name: string, c: nat) {
    && Count(g, ServiceTopic(name, Rq)).writers == c <= UINT32_MAX
    && Count(g, ServiceTopic(name, Rr)).readers == c
  }

  ghost predicate ServiceInv(st: State) { forall name :: ServiceCounts(st.g, name, st.services[name]) }

  ghost predicate ClientInv(st: State) { forall name :: ClientCounts(st.g, name, st.clients[name]) }

  /** The create call of a service can be counted: it binds the topics, or they are bound. */
  predicate ServiceCounted(g: Graph, e: Event) {
    e.CreateServiceCall? && e.o == Succeeds ==> e.introspection || Bound(g, e.name)
  }

  predicate ClientCounted(g: Graph, e: Event) {
    e.CreateClientCall? && e.o == Succeeds ==> e.introspection || Bound(g, e.name)
  }

  /** Every service of the run was created with its topics bound, if need be by itself. */
  predicate ServicesCounted(events: seq<Event>) {
    events == [] ||
    var before := events[..|events| - 1];
    ServicesCounted(before) && (Run(before).Some? ==> ServiceCounted(Run(before).value.g, events[|events| - 1]))
  }

  predicate ClientsCounted(events: seq<Event>) {
    events == [] ||
    var before := events[..|events| - 1];
    ClientsCounted(before) && (Run(before).Some? ==> ClientCounted(Run(before).value.g, events[|events| - 1]))
  }

  lemma DifferentDirections(n: string)
    ensures ServiceTopic(n, Rq) != ServiceTopic(n, Rr)
  {
    if ServiceTopic(n, Rq) == ServiceTopic(n, Rr) { TopicInjective(n, Rq, n, Rr); assert false; }
  }

  /** The topics of a name are its own: operations on another name do not reach them. */
  lemma OwnTopics(n: string, p: Prefix, m: string)
    requires n != m
    ensures ServiceTopic(m, p) != ServiceTopic(n, Rq) && ServiceTopic(m, p) != ServiceTopic(n, Rr)
  {
    if ServiceTopic(m, p) == ServiceTopic(n, Rq) { TopicInjective(m, p, n, Rq); assert false; }
    if ServiceTopic(m, p) == ServiceTopic(n, Rr) { TopicInjective(m, p, n, Rr); assert false; }
  }

  lemma CreateServiceCounts(g: Graph, n: string, i: bool, o: Outcome, s: nat)
    requires ServiceCounts(g, n, s) && s < UINT32_MAX && (o == Succeeds ==> i || Bound(g, n))
    ensures ServiceCounts(CreateService(g, n, i, o), n, if o == Succeeds then s + 1 else s)
  {
    DifferentDirections(n);
  }

  lemma CreateServiceKeepsClients(g: Graph, n: string, i: bool, o: Outcome, c: nat)
    requires ClientCounts(g, n, c)
    ensures ClientCounts(CreateService(g, n, i, o), n, c)
  {
    DifferentDirections(n);
  }

  lemma CreateClientCounts(g: Graph, n: string, i: bool, o: Outcome, c: nat)
    requires ClientCounts(g, n, c) && c < UINT32_MAX && (o == Succeeds ==> i || Bound(g, n))
    ensures ClientCounts(CreateClient(g, n, i, o), n, if o == Succeeds then c + 1 else c)
  {
    DifferentDirections(n);
  }

  lemma CreateClientKeepsServices(g: Graph, n: string, i: bool, o: Outcome, s: nat)
    requires ServiceCounts(g, n, s)
    ensures ServiceCounts(CreateClient(g, n, i, o), n, s)
  {
    DifferentDirections(n);
  }

  lemma DestroyCounts(g: Graph, n: string)
    ensures forall s: nat | s > 0 && ServiceCounts(g, n, s) :: ServiceCounts(DestroyService(g, n), n, s - 1)
    ensures forall c: nat | ClientCounts(g, n, c) :: ClientCounts(DestroyService(g, n), n, c)
    ensures forall c: nat | c > 0 && ClientCounts(g, n, c) :: ClientCounts(DestroyClient(g, n), n, c - 1)
    ensures forall s: nat | ServiceCounts(g, n, s) :: ServiceCounts(DestroyClient(g, n), n, s)
  {
    DifferentDirections(n);
  }

  /** No operation on `n` moves a topic that is not one of its two. */
  lemma CreateServiceElsewhere(g: Graph, n: string, i: bool, o: Outcome, t: string)
    requires t != ServiceTopic(n, Rq) && t != ServiceTopic(n, Rr)
    ensures t in CreateService(g, n, i, o) <==> t in g
    ensures Count(CreateService(g, n, i, o), t) == Count(g, t)
  {
  }

  lemma CreateClientElsewhere(g: Graph, n: string, i: bool, o: Outcome, t: string)
    requires t != ServiceTopic(n, Rq) && t != ServiceTopic(n, Rr)
    ensures t in CreateClient(g, n, i, o) <==> t in g
    ensures Count(CreateClient(g, n, i, o), t) == Count(g, t)
  {
  }

  lemma OtherTopics(st: State, e: Event, t: string)
    requires t != ServiceTopic(e.name, Rq) && t != ServiceTopic(e.name, Rr)
    ensures t in Effect(st, e).g <==> t in st.g
    ensures Count(Effect(st, e).g, t) == Count(st.g, t)
  {
    match e {
      case CreateServiceCall(n, i, o) => CreateServiceElsewhere(st.g, n, i, o, t);
      case CreateClientCall(n, i, o) => CreateClientElsewhere(st.g, n, i, o, t);
      case DestroyServiceCall(n) =>
      case DestroyClientCall(n) =>
    }
  }

  lemma OtherNames(st: State, e: Event, m: string)
    requires m != e.name
    ensures forall s: nat :: ServiceCounts(st.g, m, s) ==> ServiceCounts(Effect(st, e).g, m, s)
    ensures forall c: nat :: ClientCounts(st.g, m, c) ==> ClientCounts(Effect(st, e).g, m, c)
    ensures Effect(st, e).services[m] == st.services[m] && Effect(st, e).clients[m] == st.clients[m]
  {
    OwnTopics(e.name, Rq, m);
    OwnTopics(e.name, Rr, m);
    OtherTopics(st, e, ServiceTopic(m, Rq));
    OtherTopics(st, e, ServiceTopic(m, Rr));
  }

  lemma OwnServices(st: State, e: Event)
    requires Possible(st, e) && ServiceCounted(st.g, e) && ServiceCounts(st.g, e.name, st.services[e.name])
    ensures ServiceCounts(Effect(st, e).g, e.name, Effect(st, e).services[e.name])
  {
    var s := st.services[e.name];
    match e {
      case CreateServiceCall(n, i, o) => CreateServiceCounts(st.g, n, i, o, s);
      case CreateClientCall(n, i, o) => CreateClientKeepsServices(st.g, n, i, o, s);
      case DestroyServiceCall(n) => DestroyCounts(st.g, n);
      case DestroyClientCall(n) => DestroyCounts(st.g, n);
    }
  }

  lemma OwnClients(st: State, e: Event)
    requires Possible(st, e) && ClientCounted(st.g, e) && ClientCounts(st.g, e.name, st.clients[e.name])
    ensures ClientCounts(Effect(st, e).g, e.name, Effect(st, e).clients[e.name])
  {
    var c := st.clients[e.name];
    match e {
      case CreateServiceCall(n, i, o) => CreateServiceKeepsClients(st.g, n, i, o, c);
      case CreateClientCall(n, i, o) => CreateClientCounts(st.g, n, i, o, c);
      case DestroyServiceCall(n) => DestroyCounts(st.g, n);
      case DestroyClientCall(n) => DestroyCounts(st.g, n);
    }
  }

  lemma EffectKeepsServices(st: State, e: Event)
    requires ServiceInv(st) && Possible(st, e) && ServiceCounted(st.g, e)
    ensures ServiceInv(Effect(st, e))
  {
    forall m ensures ServiceCounts(Effect(st, e).g, m, Effect(st, e).services[m]) {
      assert ServiceCounts(st.g, m, st.services[m]);
      if m == e.name { OwnServices(st, e); } else { OtherNames(st, e, m); }
    }
  }

  lemma EffectKeepsClients(st: State, e: Event)
    requires ClientInv(st) && Possible(st, e) && ClientCounted(st.g, e)
    ensures ClientInv(Effect(st, e))
  {
    forall m ensures ClientCounts(Effect(st, e).g, m, Effect(st, e).clients[m]) {
      assert ClientCounts(st.g, m, st.clients[m]);
      if m == e.name { OwnClients(st, e); } else { OtherNames(st, e, m); }
    }
  }

  lemma {:induction false} RunKeepsServices(events: seq<Event>)
    requires Run(events).Some? && ServicesCounted(events)
    ensures ServiceInv(Run(events).value)
  {
    if events != [] {
      RunKeepsServices(events[..|events| - 1]);
      EffectKeepsServices(Run(events[..|events| - 1]).value, events[|events| - 1]);
    }
  }

  lemma {:induction false} RunKeepsClients(events: seq<Event>)
    requires Run(events).Some? && ClientsCounted(events)
    ensures ClientInv(Run(events).value)
  {
    if events != [] {
      RunKeepsClients(events[..|events| - 1]);
      EffectKeepsClients(Run(events[..|events| - 1]).value, events[|events| - 1]);
    }
  }

  // ------------------------------------------------------------ the question

  function Max(a: nat, b: nat): nat { if a >= b then a else b }

  /** `for_each_topic` shows the local graph merged with what discovery has found. */
  function Merged(g: Graph, discovered: Graph): Graph {
    map t | t in g.Keys + discovered.Keys ::
      Topic(Max(Count(g, t).writers, Count(discovered, t).writers),
            Max(Count(g, t).readers, Count(discovered, t).readers))
  }

  /** Discovery has found the endpoints of exactly the remote services `remote`. */
  ghost predicate Describes(discovered: Graph, remote: set<string>) {
    forall n {:trigger n in remote} ::
      && (n in remote <==> Count(discovered, ServiceTopic(n, Rq)).readers > 0)
      && (n in remote <==> Count(discovered, ServiceTopic(n, Rr)).writers > 0)
  }

  /** `rmw_service_server_is_available` for a client of `name`. */
  predicate Available(view: Graph, name: string) {
    Count(view, ServiceTopic(name, Rq)).readers > 0 && Count(view, ServiceTopic(name, Rr)).writers > 0
  }

  /** In every run of create and destroy calls, failed ones included, whose services were
      all countable, a service is reported available exactly when a live service, local or
      remote, has that name. */
  lemma AvailableIffLive(events: seq<Event>, discovered: Graph, remote: set<string>, name: string)
    requires Run(events).Some? && ServicesCounted(events)
    requires Describes(discovered, remote)
    ensures Available(Merged(Run(events).value.g, discovered), name) <==>
            name in Run(events).value.services || name in remote
  {
    RunKeepsServices(events);
    var st := Run(events).value;
    assert ServiceCounts(st.g, name, st.services[name]);
    assert name in remote <==> Count(discovered, ServiceTopic(name, Rq)).readers > 0;
  }

  ghost predicate Right(st: State) {
    forall name :: Available(st.g, name) <==> name in st.services
  }

  ghost predicate AlwaysRight(events: seq<Event>) {
    events == [] || (AlwaysRight(events[..|events| - 1]) && (Run(events).Some? ==> Right(Run(events).value)))
  }

  /** A service that is created without introspection on topics nobody bound is invisible. */
  lemma UncountedIsInvisible(st: State, e: Event)
    requires ServiceInv(st) && !ServiceCounted(st.g, e)
    ensures !Right(Effect(st, e))
  {
    DifferentDirections(e.name);
    var st' := Effect(st, e);
    assert ServiceCounts(st.g, e.name, st.services[e.name]);
    assert Bound(st'.g, e.name) ==> Bound(st.g, e.name);
    assert !Available(st'.g, e.name) && e.name in st'.services;
  }

  /** The condition is exact: availability was right all along the run if and only if
      every service was created with introspection or on topics bound before. */
  lemma {:induction false} AlwaysRightIffCounted(events: seq<Event>)
    requires Run(events).Some?
    ensures AlwaysRight(events) <==> ServicesCounted(events)
  {
    if events != [] {
      var before, last := events[..|events| - 1], events[|events| - 1];
      AlwaysRightIffCounted(before);
      if ServicesCounted(before) {
        var st := Run(before).value;
        RunKeepsServices(before);
        if ServiceCounted(st.g, last) {
          RunKeepsServices(events);
          forall name ensures Available(Effect(st, last).g, name) <==> name in Effect(st, last).services {
            assert ServiceCounts(Effect(st, last).g, name, Effect(st, last).services[name]);
          }
        } else {
          UncountedIsInvisible(st, last);
        }
      }
    }
  }

  // -------------------------------------------- counting services and clients

  /** `rmw_count_services` and `rmw_count_clients` look at `<name>/rq`, the former at its
      writers and the latter at its readers. */
  function CountServices(view: Graph, name: string): nat { Count(view, name + "/rq").writers }

  function CountClients(view: Graph, name: string): nat { Count(view, name + "/rq").readers }

  /** Where the topics of a graph come from: nothing but services and clients made them. */
  ghost predicate OnlyServiceTopics(g: Graph) {
    forall t :: t in g ==> exists n, p :: t == ServiceTopic(n, p)
  }

  lemma EffectKeepsTopics(st: State, e: Event)
    requires OnlyServiceTopics(st.g)
    ensures OnlyServiceTopics(Effect(st, e).g)
  {
    forall t | t in Effect(st, e).g ensures exists n, p :: t == ServiceTopic(n, p) {
      if t != ServiceTopic(e.name, Rq) && t != ServiceTopic(e.name, Rr) { OtherTopics(st, e, t); }
    }
  }

  lemma {:induction false} RunKeepsTopics(events: seq<Event>)
    requires Run(events).Some?
    ensures OnlyServiceTopics(Run(events).value.g)
  {
    if events != [] {
      RunKeepsTopics(events[..|events| - 1]);
      EffectKeepsTopics(Run(events[..|events| - 1]).value, events[|events| - 1]);
    }
  }

  /** `<name>/rq` is a service topic of direction p: it starts like one, and an unrooted one
      does not go on with a slash. */
  predicate Spells(name: string, p: Prefix) {
    if |name| > 0 && name[0] == '/'
    then |name| >= 3 && name[1..3] == p.Text() && (|name| > 3 ==> name[3] == '/')
    else |name| >= 2 && name[..2] == p.Text() && (|name| == 2 || (|name| > 3 && name[2] == '/' && name[3] != '/'))
  }

  /** The service whose topic it then is. */
  function Spelled(name: string): string
    requires |name| >= 2
  {
    (name + "/rq")[3..]
  }

  lemma TopicIsSpelled(name: string, n: string, p: Prefix)
    requires name + "/rq" == ServiceTopic(n, p)
    ensures Spells(name, p) && n == Spelled(name)
  {
    var t := name + "/rq";
    assert t[|name|] == '/';
    TopicRoundTrip(n, p, p);
    if t[0] == '/' {
      assert t[1..3] == p.Text() && t[1] == 'r' && t[2] == p.Text()[1] && t[3] == '/';
      assert |name| >= 3;
      assert name[1..3] == t[1..3];
      assert |name| > 3 ==> name[3] == t[3];
      assert t[3..] == n;
    } else {
      assert t[..2] == p.Text() && t[1] == p.Text()[1] && t[2] == '/';
      assert |name| >= 2;
      assert name[..2] == t[..2];
      assert |name| > 2 ==> name[2] == t[2];
      assert t[3..] == n && t[3] == n[0] != '/';
      assert |name| != 3;
      assert |name| > 3 ==> t[3] == name[3];
    }
  }

  lemma SpelledIsTopic(name: string, p: Prefix)
    requires Spells(name, p)
    ensures name + "/rq" == ServiceTopic(Spelled(name), p)
  {
    var t, n := name + "/rq", Spelled(name);
    if name[0] == '/' {
      assert t[1..3] == p.Text() && t[3] == '/' && n[0] == '/';
      assert t == "/" + t[1..3] + "/" + t[4..];
      assert n[1..] == t[4..];
    } else {
      assert t[..2] == p.Text() && t[2] == '/';
      assert n[0] == t[3];
      assert t == t[..2] + "/" + t[3..];
    }
  }

  /** Exactly the names that spell a topic lead to one, and to that of one service. */
  lemma SpellsIff(name: string, p: Prefix)
    ensures (exists n :: name + "/rq" == ServiceTopic(n, p)) <==> Spells(name, p)
  {
    if n :| name + "/rq" == ServiceTopic(n, p) { TopicIsSpelled(name, n, p); }
    if Spells(name, p) { SpelledIsTopic(name, p); }
  }

  /** The topic asked for is not the topic services use, so in every run the counts of
      services and clients are zero unless the name spells some service topic. */
  lemma CountsAreZero(events: seq<Event>, name: string)
    requires Run(events).Some? && !Spells(name, Rq) && !Spells(name, Rr)
    ensures CountServices(Run(events).value.g, name) == 0 && CountClients(Run(events).value.g, name) == 0
  {
    RunKeepsTopics(events);
    if name + "/rq" in Run(events).value.g {
      var n, p :| name + "/rq" == ServiceTopic(n, p);
      TopicIsSpelled(name, n, p);
      assert false;
    }
  }

  /** So for such a name the two counts are right exactly when there is nothing to count. */
  lemma CountsRightIffNone(events: seq<Event>, name: string)
    requires Run(events).Some? && !Spells(name, Rq) && !Spells(name, Rr)
    ensures CountServices(Run(events).value.g, name) == Run(events).value.services[name] <==>
            name !in Run(events).value.services
    ensures CountClients(Run(events).value.g, name) == Run(events).value.clients[name] <==>
            name !in Run(events).value.clients
  {
    CountsAreZero(events, name);
  }

  /** For every remaining name the numbers belong to the service whose topic it spells, and on
      a request topic its clients are reported as services and its services as clients. */
  lemma CountsOfTopic(events: seq<Event>, name: string, p: Prefix)
    requires Run(events).Some? && ServicesCounted(events) && ClientsCounted(events) && Spells(name, p)
    ensures var st, n := Run(events).value, Spelled(name);
            if p == Rq then CountServices(st.g, name) == st.clients[n] && CountClients(st.g, name) == st.services[n]
            else CountServices(st.g, name) == st.services[n] && CountClients(st.g, name) == st.clients[n]
  {
    RunKeepsServices(events);
    RunKeepsClients(events);
    SpelledIsTopic(name, p);
    var st, n := Run(events).value, Spelled(name);
    assert ServiceCounts(st.g, n, st.services[n]) && ClientCounts(st.g, n, st.clients[n]);
  }

  // ------------------------------------------- how the counts are looked up

  datatype TopicView = TopicView(name: string, topic: Topic)

  /** A visit of all topics: each once, in whatever order the hash map yields. */
  ghost predicate Enumerates(visits: seq<TopicView>, view: Graph) {
    && (forall i :: 0 <= i < |visits| ==> visits[i].name in view && view[visits[i].name] == visits[i].topic)
    && (forall t :: t in view ==> exists i :: 0 <= i < |visits| && visits[i].name == t)
  }

  /** The visitor `hdds_graph_count_cb`, which stops looking after the first match. */
  method CountTopic(visits: seq<TopicView>, topic: string, countPublishers: bool, ghost view: Graph)
    returns (count: nat)
    requires Enumerates(visits, view)
    ensures count == if countPublishers then Count(view, topic).writers else Count(view, topic).readers
  {
    count := 0;
    var matched := false;
    for i := 0 to |visits|
      invariant !matched ==> count == 0 && forall k :: 0 <= k < i ==> visits[k].name != topic
      invariant matched ==>
                  topic in view && count == if countPublishers then view[topic].writers else view[topic].readers
    {
      if !matched && visits[i].name == topic {
        count := if countPublishers then visits[i].topic.writers else visits[i].topic.readers;
        matched := true;
      }
    }
  }

  /** Both questions visit the topics anew; the graph may have changed in between. */
  method IsAvailable(name: string, first: seq<TopicView>, second: seq<TopicView>, ghost v1: Graph, ghost v2: Graph)
    returns (available: bool)
    requires Enumerates(first, v1) && Enumerates(second, v2)
    ensures v1 == v2 ==> available == Available(v1, name)
    ensures available ==> Count(v1, ServiceTopic(name, Rq)).readers > 0 && Count(v2, ServiceTopic(name, Rr)).writers > 0
  {
    var requests := CountTopic(first, ServiceTopic(name, Rq), false, v1);
    var responses := CountTopic(second, ServiceTopic(name, Rr), true, v2);
    available := requests > 0 && responses > 0;
  }
}
