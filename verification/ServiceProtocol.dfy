/** Requests and responses of any number of clients and services of one process, over
    topics that may drop, duplicate and reorder messages. A topic is the set of messages
    ever written to it: a reader may take any of them, any number of times, in any order,
    or never. Only clients and services write to service topics, and a service replies
    only with headers it has taken. */
module ServiceProtocol {
  import opened Common
  import opened Bytes
  import opened ServiceNames
  import opened RequestIdCodec

  type Message = seq<Byte>

  datatype Client = Client(name: string, guid: seq<Byte>, nextSequence: nat, alive: bool)
  datatype Service = Service(name: string, taken: set<RequestId>, alive: bool)

  /** One `rmw_send_request` call: who made it, to which service, and the header it stamped. */
  datatype Sent = Sent(client: nat, service: string, id: RequestId)

  /** One `rmw_take_response` call that marked a response taken: who made it, of which
      service it is a client, the header it returned, and how many requests had been sent
      by then. */
  datatype Returned = Returned(client: nat, service: string, id: RequestId, sentBefore: nat)

  datatype State = State(
    guidCounter: nat,
    clients: seq<Client>,
    services: seq<Service>,
    network: set<(string, Message)>,
    sent: seq<Sent>,
    returned: seq<Returned>)

  const INITIAL := State(1, [], [], {}, [], [])

  /** `published` and `decodes` are the outcomes of the calls below the middleware layer:
      allocation, serialization and writing, or deserialization. */
  datatype Event =
    | CreateClient(name: string, guid: seq<Byte>)
    | DestroyClient(c: nat)
    | CreateService(name: string)
    | DestroyService(s: nat)
    | SendRequest(c: nat, payload: Message, published: bool)
    | TakeRequest(s: nat, msg: Message, decodes: bool)
    | SendResponse(s: nat, id: RequestId, payload: Message, published: bool)
    | TakeResponse(c: nat, msg: Message, decodes: bool)

  /** What a new client writes into its writer guid: the process-wide counter as eight
      little-endian bytes, then eight bytes holding its own address, whatever that is. */
  predicate IsWriterGuid(guid: seq<Byte>, counter: nat) {
    |guid| == GUID_LEN && LeValue(guid[..8]) == counter
  }

  predicate LiveClient(st: State, c: nat) { c < |st.clients| && st.clients[c].alive }
  predicate LiveService(st: State, s: nat) { s < |st.services| && st.services[s].alive }

  /** What can happen next. The two numeric guards keep C's arithmetic defined: the guid
      counter has not wrapped, and incrementing the sequence number does not overflow. */
  predicate Enabled(st: State, e: Event) {
    match e
    case CreateClient(_, guid) => st.guidCounter <= UINT64_MAX && IsWriterGuid(guid, st.guidCounter)
    case DestroyClient(c) => LiveClient(st, c)
    case CreateService(_) => true
    case DestroyService(s) => LiveService(st, s)
    case SendRequest(c, _, _) => LiveClient(st, c) && st.clients[c].nextSequence < INT64_MAX
    case TakeRequest(s, msg, _) =>
      LiveService(st, s) && (ServiceTopic(st.services[s].name, Rq), msg) in st.network
    case SendResponse(s, id, _, _) => LiveService(st, s) && id in st.services[s].taken
    case TakeResponse(c, msg, _) =>
      LiveClient(st, c) && (ServiceTopic(st.clients[c].name, Rr), msg) in st.network
  }

  /** The sequence number `rmw_send_request` stamps, with its detour around zero. */
  function Stamp(nextSequence: nat): (nat, nat) {
    if nextSequence == 0 then (1, 2) else (nextSequence, nextSequence + 1)
  }

  function Next(st: State, e: Event): State
    requires Enabled(st, e)
  {
    match e
    case CreateClient(name, guid) =>
      st.(guidCounter := st.guidCounter + 1, clients := st.clients + [Client(name, guid, 1, true)])
    case DestroyClient(c) => st.(clients := st.clients[c := st.clients[c].(alive := false)])
    case CreateService(name) => st.(services := st.services + [Service(name, {}, true)])
    case DestroyService(s) => st.(services := st.services[s := st.services[s].(alive := false)])
    case SendRequest(c, payload, published) =>
      var client := st.clients[c];
      var (sequence, next) := Stamp(client.nextSequence);
      var id := RequestId(client.guid, sequence);
      st.(clients := st.clients[c := client.(nextSequence := next)],
          sent := st.sent + [Sent(c, client.name, id)],
          network := if published && Representable(id)
                     then st.network + {(ServiceTopic(client.name, Rq), Encode(id) + payload)}
                     else st.network)
    case TakeRequest(s, msg, decodes) =>
      (match Decode(msg)
       case Some(id) =>
         if decodes
         then st.(services := st.services[s := st.services[s].(taken := st.services[s].taken + {id})])
         else st
       case None => st)
    case SendResponse(s, id, payload, published) =>
      if published && Acceptable(id)
      then st.(network := st.network + {(ServiceTopic(st.services[s].name, Rr), Encode(id) + payload)})
      else st
    case TakeResponse(c, msg, decodes) =>
      (match Decode(msg)
       case Some(id) =>
         if decodes then st.(returned := st.returned + [Returned(c, st.clients[c].name, id, |st.sent|)]) else st
       case None => st)
  }

  /** The state a run ends in, or None when some event was not possible. */
  function Run(events: seq<Event>): Option<State> {
    if events == [] then Some(INITIAL) else
      match Run(events[..|events| - 1])
      case None => None
      case Some(st) =>
        var e := events[|events| - 1];
        if Enabled(st, e) then Some(Next(st, e)) else None
  }

  // --------------------------------------------------------------- invariant

  /** Some request with header `id` was sent to service `name`. */
  ghost predicate Known(sent: seq<Sent>, id: RequestId, name: string) {
    exists k :: 0 <= k < |sent| && sent[k].id == id && sent[k].service == name
  }

  /** Message `msg` on `topic` is stamped with the header of a request sent to the
      service the topic belongs to. */
  ghost predicate Genuine(sent: seq<Sent>, topic: string, msg: Message) {
    Decode(msg).Some? &&
    exists name: string, p: Prefix ::
      topic == ServiceTopic(name, p) && Known(sent, Decode(msg).value, name)
  }

  ghost predicate ClientsInv(guidCounter: nat, clients: seq<Client>) {
    && guidCounter == |clients| + 1 <= UINT64_MAX + 1
    && (forall c :: 0 <= c < |clients| ==>
          && IsWriterGuid(clients[c].guid, c + 1)
          && 1 <= clients[c].nextSequence <= INT64_MAX)
  }

  ghost predicate SentInv(clients: seq<Client>, sent: seq<Sent>) {
    && (forall k :: 0 <= k < |sent| ==>
          && sent[k].client < |clients|
          && sent[k].service == clients[sent[k].client].name
          && sent[k].id.guid == clients[sent[k].client].guid
          && 1 <= sent[k].id.sequence < clients[sent[k].client].nextSequence)
    && (forall j, k :: 0 <= j < k < |sent| && sent[j].client == sent[k].client ==>
          sent[j].id.sequence < sent[k].id.sequence)
  }

  ghost predicate NetworkInv(network: set<(string, Message)>, sent: seq<Sent>) {
    forall w :: w in network ==> Genuine(sent, w.0, w.1)
  }

  ghost predicate HeadersKnown(service: Service, sent: seq<Sent>) {
    forall id :: id in service.taken ==> Acceptable(id) && Known(sent, id, service.name)
  }

  ghost predicate TakenInv(services: seq<Service>, sent: seq<Sent>) {
    forall s :: 0 <= s < |services| ==> HeadersKnown(services[s], sent)
  }

  ghost predicate ReturnedInv(clients: seq<Client>, returned: seq<Returned>, sent: seq<Sent>) {
    forall r :: 0 <= r < |returned| ==>
      && returned[r].client < |clients| && returned[r].sentBefore <= |sent|
      && returned[r].service == clients[returned[r].client].name
      && Known(sent[..returned[r].sentBefore], returned[r].id, returned[r].service)
  }

  ghost predicate Inv(st: State) {
    && ClientsInv(st.guidCounter, st.clients) && SentInv(st.clients, st.sent)
    && NetworkInv(st.network, st.sent) && TakenInv(st.services, st.sent)
    && ReturnedInv(st.clients, st.returned, st.sent)
  }

  lemma KnownSnoc(sent: seq<Sent>, x: Sent, id: RequestId, name: string)
    requires Known(sent, id, name)
    ensures Known(sent + [x], id, name)
  {
    var k :| 0 <= k < |sent| && sent[k].id == id && sent[k].service == name;
    assert (sent + [x])[k] == sent[k];
  }

  /** One more request leaves every message, taken header and returned header accounted for. */
  lemma SnocKeepsAccounts(st: State, x: Sent)
    requires Inv(st)
    ensures NetworkInv(st.network, st.sent + [x])
    ensures TakenInv(st.services, st.sent + [x])
    ensures ReturnedInv(st.clients, st.returned, st.sent + [x])
  {
    forall w | w in st.network ensures Genuine(st.sent + [x], w.0, w.1) {
      var name: string, p: Prefix :| w.0 == ServiceTopic(name, p) && Known(st.sent, Decode(w.1).value, name);
      KnownSnoc(st.sent, x, Decode(w.1).value, name);
    }
    forall s | 0 <= s < |st.services| ensures HeadersKnown(st.services[s], st.sent + [x]) {
      forall id | id in st.services[s].taken ensures Known(st.sent + [x], id, st.services[s].name) {
        KnownSnoc(st.sent, x, id, st.services[s].name);
      }
    }
    forall r | 0 <= r < |st.returned|
      ensures Known((st.sent + [x])[..st.returned[r].sentBefore], st.returned[r].id, st.returned[r].service) {
      var n := st.returned[r].sentBefore;
      assert (st.sent + [x])[..n] == st.sent[..n];
    }
  }

  lemma GuidNonZero(guid: seq<Byte>, counter: nat)
    requires IsWriterGuid(guid, counter) && counter > 0
    ensures NonZero(guid)
  {
    var i := NonZeroByte(guid[..8]);
    assert guid[i] != 0;
  }

  lemma {:induction false} NonZeroByte(s: seq<Byte>) returns (i: nat)
    requires LeValue(s) != 0
    ensures i < |s| && s[i] != 0
  {
    if s[0] != 0 {
      i := 0;
    } else {
      i := NonZeroByte(s[1..]);
      i := i + 1;
    }
  }

  /** Headers identify requests: the guid tells the client, the sequence the call. */
  lemma SentUnique(st: State, j: nat, k: nat)
    requires Inv(st) && j < |st.sent| && k < |st.sent| && st.sent[j].id == st.sent[k].id
    ensures j == k
  {
    assert IsWriterGuid(st.sent[j].id.guid, st.sent[j].client + 1);
    assert IsWriterGuid(st.sent[k].id.guid, st.sent[k].client + 1);
  }

  /** Stamping and counting: the new header is above all earlier ones of its client. */
  lemma StampKeepsSentInv(guidCounter: nat, clients: seq<Client>, sent: seq<Sent>, c: nat)
    requires ClientsInv(guidCounter, clients) && SentInv(clients, sent)
    requires c < |clients| && clients[c].nextSequence < INT64_MAX
    ensures var client := clients[c];
            var clients' := clients[c := client.(nextSequence := client.nextSequence + 1)];
            && ClientsInv(guidCounter, clients')
            && SentInv(clients', sent + [Sent(c, client.name, RequestId(client.guid, client.nextSequence))])
  {
  }

  lemma SendRequestKeepsInv(st: State, c: nat, payload: Message, published: bool)
    requires Inv(st) && Enabled(st, SendRequest(c, payload, published))
    ensures Inv(Next(st, SendRequest(c, payload, published)))
  {
    var client := st.clients[c];
    var x := Sent(c, client.name, RequestId(client.guid, client.nextSequence));
    var st' := Next(st, SendRequest(c, payload, published));
    assert st'.sent == st.sent + [x];
    SnocKeepsAccounts(st, x);
    StampKeepsSentInv(st.guidCounter, st.clients, st.sent, c);
    SameNamesKeepReturned(st.clients, st'.clients, st.returned, st'.sent);
    assert NetworkInv(st'.network, st'.sent) by {
      GuidNonZero(client.guid, c + 1);
      RequestIsGenuine(st.sent, x, payload);
    }
  }

  lemma SameNamesKeepReturned(clients: seq<Client>, clients': seq<Client>, returned: seq<Returned>, sent: seq<Sent>)
    requires ReturnedInv(clients, returned, sent) && |clients| <= |clients'|
    requires forall i :: 0 <= i < |clients| ==> clients'[i].name == clients[i].name
    ensures ReturnedInv(clients', returned, sent)
  {
  }

  lemma RequestIsGenuine(sent: seq<Sent>, x: Sent, payload: Message)
    requires Acceptable(x.id)
    ensures Genuine(sent + [x], ServiceTopic(x.service, Rq), Encode(x.id) + payload)
  {
    DecodeStamped(x.id, payload);
    assert (sent + [x])[|sent|] == x;
    assert Known(sent + [x], x.id, x.service);
  }

  /** A message on a topic of service `name` carries the header of a request to `name`:
      no other service uses that topic, and neither does the other direction. */
  lemma HeaderIsKnown(st: State, name: string, p: Prefix, msg: Message)
    requires NetworkInv(st.network, st.sent) && (ServiceTopic(name, p), msg) in st.network
    ensures Decode(msg).Some? && Acceptable(Decode(msg).value) && Known(st.sent, Decode(msg).value, name)
  {
    assert Genuine(st.sent, ServiceTopic(name, p), msg);
    var n: string, q: Prefix :|
      ServiceTopic(name, p) == ServiceTopic(n, q) && Known(st.sent, Decode(msg).value, n);
    TopicInjective(name, p, n, q);
    DecodeIffEncoded(msg, Decode(msg).value);
  }

  lemma TakeRequestKeepsInv(st: State, s: nat, msg: Message, decodes: bool)
    requires Inv(st) && Enabled(st, TakeRequest(s, msg, decodes))
    ensures Inv(Next(st, TakeRequest(s, msg, decodes)))
  {
    HeaderIsKnown(st, st.services[s].name, Rq, msg);
  }

  lemma SendResponseKeepsInv(st: State, s: nat, id: RequestId, payload: Message, published: bool)
    requires Inv(st) && Enabled(st, SendResponse(s, id, payload, published))
    ensures Inv(Next(st, SendResponse(s, id, payload, published)))
  {
    DecodeStamped(id, payload);
    assert Genuine(st.sent, ServiceTopic(st.services[s].name, Rr), Encode(id) + payload);
  }

  lemma TakeResponseKeepsInv(st: State, c: nat, msg: Message, decodes: bool)
    requires Inv(st) && Enabled(st, TakeResponse(c, msg, decodes))
    ensures Inv(Next(st, TakeResponse(c, msg, decodes)))
  {
    HeaderIsKnown(st, st.clients[c].name, Rr, msg);
    assert st.sent[..|st.sent|] == st.sent;
  }

  lemma NextKeepsInv(st: State, e: Event)
    requires Inv(st) && Enabled(st, e)
    ensures Inv(Next(st, e))
  {
    match e
    case CreateClient(name, guid) =>
    case DestroyClient(c) =>
    case CreateService(name) =>
    case DestroyService(s) =>
    case SendRequest(c, payload, published) => SendRequestKeepsInv(st, c, payload, published);
    case TakeRequest(s, msg, decodes) => TakeRequestKeepsInv(st, s, msg, decodes);
    case SendResponse(s, id, payload, published) => SendResponseKeepsInv(st, s, id, payload, published);
    case TakeResponse(c, msg, decodes) => TakeResponseKeepsInv(st, c, msg, decodes);
  }

  lemma InitialInv()
    ensures Inv(INITIAL)
  {
  }

  lemma RunUnfolds(events: seq<Event>) returns (before: State, e: Event)
    requires events != [] && Run(events).Some?
    ensures Run(events[..|events| - 1]) == Some(before) && e == events[|events| - 1]
    ensures Enabled(before, e) && Run(events) == Some(Next(before, e))
  {
    before, e := Run(events[..|events| - 1]).value, events[|events| - 1];
  }

  lemma {:induction false} RunKeepsInv(events: seq<Event>)
    requires Run(events).Some?
    ensures Inv(Run(events).value)
  {
    if events == [] {
      InitialInv();
    } else {
      var before, e := RunUnfolds(events);
      RunKeepsInv(events[..|events| - 1]);
      NextKeepsInv(before, e);
    }
  }

  // ---------------------------------------------------------------- theorems

  /** In every run, every header a client gets back is the header of exactly one request
      sent earlier, and that request was addressed to the service of that client. */
  lemma EveryResponseHasOneRequest(events: seq<Event>, r: nat)
    requires Run(events).Some? && r < |Run(events).value.returned|
    ensures var st := Run(events).value;
            var got := st.returned[r];
            && got.client < |st.clients| && got.service == st.clients[got.client].name
            && exists k :: 0 <= k < |st.sent| && k < got.sentBefore
                 && st.sent[k].id == got.id && st.sent[k].service == got.service
                 && forall j :: 0 <= j < |st.sent| && st.sent[j].id == got.id ==> j == k
  {
    var st := Run(events).value;
    RunKeepsInv(events);
    var got := st.returned[r];
    var k :| 0 <= k < got.sentBefore && st.sent[..got.sentBefore][k].id == got.id &&
             st.sent[..got.sentBefore][k].service == got.service;
    assert st.sent[k] == st.sent[..got.sentBefore][k];
    forall j | 0 <= j < |st.sent| && st.sent[j].id == got.id ensures j == k {
      SentUnique(st, j, k);
    }
  }

  /** The guid of a returned header tells whose request it was. */
  lemma ResponseIsOwnIffGuidMatches(events: seq<Event>, r: nat, k: nat)
    requires Run(events).Some? && r < |Run(events).value.returned|
    requires var st := Run(events).value; k < |st.sent| && st.sent[k].id == st.returned[r].id
    ensures var st := Run(events).value;
            var got := st.returned[r];
            got.client < |st.clients| &&
            (st.sent[k].client == got.client <==> got.id.guid == st.clients[got.client].guid)
  {
    var st := Run(events).value;
    RunKeepsInv(events);
    assert IsWriterGuid(st.sent[k].id.guid, st.sent[k].client + 1);
    assert IsWriterGuid(st.clients[st.returned[r].client].guid, st.returned[r].client + 1);
  }

  lemma Extend(events: seq<Event>, st: State, e: Event) returns (events': seq<Event>, st': State)
    requires Run(events) == Some(st) && Enabled(st, e)
    ensures Run(events') == Some(st') && st' == Next(st, e)
  {
    events', st' := events + [e], Next(st, e);
    assert events'[..|events|] == events;
  }

  /** The first request of the first client of a service that also has a second client. */
  lemma FirstRequest(name: string, g0: seq<Byte>, g1: seq<Byte>, request: Message)
    returns (events: seq<Event>, st: State)
    requires IsWriterGuid(g0, 1) && IsWriterGuid(g1, 2)
    ensures Run(events) == Some(st)
    ensures var id := RequestId(g0, 1);
            st == State(3, [Client(name, g0, 2, true), Client(name, g1, 1, true)],
                        [Service(name, {}, true)], {(ServiceTopic(name, Rq), Encode(id) + request)},
                        [Sent(0, name, id)], [])
  {
    events, st := [], INITIAL;
    events, st := Extend(events, st, CreateClient(name, g0));
    events, st := Extend(events, st, CreateClient(name, g1));
    events, st := Extend(events, st, CreateService(name));
    events, st := Extend(events, st, SendRequest(0, request, true));
  }

  /** Responses do reach other clients: a run in which client 1 takes the response to a
      request of client 0, for every service name, all addresses and all payloads. */
  lemma ForeignResponse(name: string, g0: seq<Byte>, g1: seq<Byte>, request: Message, response: Message)
    returns (events: seq<Event>)
    requires IsWriterGuid(g0, 1) && IsWriterGuid(g1, 2)
    ensures Run(events).Some?
    ensures var st := Run(events).value;
            |st.returned| == 1 && st.returned[0].client == 1 &&
            |st.sent| == 1 && st.sent[0].client == 0 && st.sent[0].id == st.returned[0].id
  {
    var id := RequestId(g0, 1);
    GuidNonZero(g0, 1);
    DecodeStamped(id, request);
    DecodeStamped(id, response);
    var st;
    events, st := FirstRequest(name, g0, g1, request);
    events, st := Extend(events, st, TakeRequest(0, Encode(id) + request, true));
    events, st := Extend(events, st, SendResponse(0, id, response, true));
    events, st := Extend(events, st, TakeResponse(1, Encode(id) + response, true));
  }
}
