/** Whose responses a client takes. `rmw_take_response` does not compare guids, so what keeps
    a client to its own responses is that no other client's header is on its topics. */
module ServiceOwnership {
  import opened Common
  import opened Bytes
  import opened ServiceNames
  import opened RequestIdCodec
  import opened ServiceProtocol

  /** The header returned by call r is that of a request of another client than c. */
  ghost predicate Foreign(st: State, r: nat, c: nat) {
    r < |st.returned| && exists k :: 0 <= k < |st.sent| && st.sent[k].id == st.returned[r].id && st.sent[k].client != c
  }

  /** In every run in which no other client of the service has sent a request, every header
      returned to a client is one of its own requests. */
  lemma OwnUnlessOthersSent(events: seq<Event>, r: nat)
    requires Run(events).Some? && r < |Run(events).value.returned|
    requires var st := Run(events).value;
             forall k :: 0 <= k < |st.sent| && st.sent[k].service == st.returned[r].service ==>
               st.sent[k].client == st.returned[r].client
    ensures var st := Run(events).value;
            && !Foreign(st, r, st.returned[r].client)
            && exists k :: 0 <= k < |st.sent| && st.sent[k].id == st.returned[r].id
                           && st.sent[k].client == st.returned[r].client
  {
    EveryResponseHasOneRequest(events, r);
  }

  // ------------------------------------------------------ one step, one client

  /** Every header a service has taken is on its request topic. */
  ghost predicate TakenSeen(st: State) {
    forall s, id :: 0 <= s < |st.services| && id in st.services[s].taken ==>
      OnTopic(st.network, ServiceTopic(st.services[s].name, Rq), id)
  }

  ghost predicate OnTopic(network: set<(string, Message)>, topic: string, id: RequestId) {
    exists msg :: (topic, msg) in network && Decode(msg) == Some(id)
  }

  /** A foreign header lies on one of the two topics of client c. */
  ghost predicate ForeignOnTopics(st: State, c: nat)
    requires c < |st.clients|
  {
    exists p: Prefix, id: RequestId ::
      OnTopic(st.network, ServiceTopic(st.clients[c].name, p), id) && id.guid != st.clients[c].guid
  }

  /** All that can reach the client named `name` with guid `g` is its own. */
  ghost predicate OwnTopics(st: State, name: string, g: seq<Byte>) {
    && (forall p: Prefix, id: RequestId :: OnTopic(st.network, ServiceTopic(name, p), id) ==> id.guid == g)
    && (forall s, id :: 0 <= s < |st.services| && st.services[s].name == name && id in st.services[s].taken ==>
          id.guid == g)
  }

  ghost predicate OwnReturns(st: State, c: nat, from: nat, g: seq<Byte>) {
    forall r :: from <= r < |st.returned| && st.returned[r].client == c ==> st.returned[r].id.guid == g
  }

  lemma NetworkGrows(st: State, e: Event)
    requires Enabled(st, e)
    ensures st.network <= Next(st, e).network && |st.returned| <= |Next(st, e).returned|
  {
  }

  lemma OnTopicGrows(a: set<(string, Message)>, b: set<(string, Message)>, topic: string, id: RequestId)
    requires a <= b && OnTopic(a, topic, id)
    ensures OnTopic(b, topic, id)
  {
  }

  lemma NextKeepsTaken(st: State, e: Event)
    requires TakenSeen(st) && Enabled(st, e)
    ensures TakenSeen(Next(st, e))
  {
    var st' := Next(st, e);
    NetworkGrows(st, e);
    forall s, id | 0 <= s < |st'.services| && id in st'.services[s].taken
      ensures OnTopic(st'.network, ServiceTopic(st'.services[s].name, Rq), id)
    {
      if s < |st.services| && id in st.services[s].taken {
        OnTopicGrows(st.network, st'.network, ServiceTopic(st.services[s].name, Rq), id);
      } else {
        assert e.TakeRequest? && e.s == s && Decode(e.msg) == Some(id);
      }
    }
  }

  lemma {:induction false} RunKeepsTaken(events: seq<Event>)
    requires Run(events).Some?
    ensures TakenSeen(Run(events).value)
  {
    if events != [] {
      RunKeepsTaken(events[..|events| - 1]);
      NextKeepsTaken(Run(events[..|events| - 1]).value, events[|events| - 1]);
    }
  }

  /** Another client of the same service sends. */
  predicate OtherSends(st: State, e: Event, c: nat, name: string) {
    e.SendRequest? && e.c != c && e.c < |st.clients| && st.clients[e.c].name == name
  }

  lemma IsClient(st: State, c: nat, name: string, g: seq<Byte>, e: Event)
    requires c < |st.clients| && st.clients[c].name == name && st.clients[c].guid == g && Enabled(st, e)
    ensures var st' := Next(st, e); c < |st'.clients| && st'.clients[c].name == name && st'.clients[c].guid == g
  {
  }

  /** What a step writes to the topics of `name` carries a header of that client, unless
      another client of the name sends. */
  lemma WritesOwn(st: State, e: Event, c: nat, name: string, g: seq<Byte>, p: Prefix, id: RequestId)
    requires Inv(st) && Enabled(st, e) && !OtherSends(st, e, c, name)
    requires c < |st.clients| && st.clients[c].name == name && st.clients[c].guid == g && OwnTopics(st, name, g)
    requires OnTopic(Next(st, e).network, ServiceTopic(name, p), id)
    ensures id.guid == g
  {
    var topic := ServiceTopic(name, p);
    var msg :| (topic, msg) in Next(st, e).network && Decode(msg) == Some(id);
    if (topic, msg) in st.network {
      assert OnTopic(st.network, topic, id);
    } else if e.SendRequest? {
      var client := st.clients[e.c];
      TopicInjective(name, p, client.name, Rq);
      assert e.c == c;
      GuidNonZero(g, c + 1);
      DecodeStamped(RequestId(g, client.nextSequence), e.payload);
    } else {
      TopicInjective(name, p, st.services[e.s].name, Rr);
      DecodeStamped(e.id, e.payload);
    }
  }

  lemma NextKeepsOwnTopics(st: State, e: Event, c: nat, name: string, g: seq<Byte>)
    requires Inv(st) && Enabled(st, e) && !OtherSends(st, e, c, name)
    requires c < |st.clients| && st.clients[c].name == name && st.clients[c].guid == g && OwnTopics(st, name, g)
    ensures OwnTopics(Next(st, e), name, g)
  {
    var st' := Next(st, e);
    forall p: Prefix, id: RequestId | OnTopic(st'.network, ServiceTopic(name, p), id) ensures id.guid == g {
      WritesOwn(st, e, c, name, g, p, id);
    }
    forall s, id | 0 <= s < |st'.services| && st'.services[s].name == name && id in st'.services[s].taken
      ensures id.guid == g
    {
      if !(s < |st.services| && id in st.services[s].taken) {
        assert e.TakeRequest? && e.s == s && Decode(e.msg) == Some(id);
        assert OnTopic(st.network, ServiceTopic(name, Rq), id);
      }
    }
  }

  lemma NextKeepsOwnReturns(st: State, e: Event, c: nat, from: nat, name: string, g: seq<Byte>)
    requires Enabled(st, e) && c < |st.clients| && st.clients[c].name == name
    requires OwnTopics(st, name, g) && OwnReturns(st, c, from, g)
    ensures OwnReturns(Next(st, e), c, from, g)
  {
    var st' := Next(st, e);
    forall r | from <= r < |st'.returned| && st'.returned[r].client == c ensures st'.returned[r].id.guid == g {
      if r >= |st.returned| {
        assert e.TakeResponse? && e.c == c;
        assert OnTopic(st.network, ServiceTopic(name, Rr), st'.returned[r].id);
      }
    }
  }

  // -------------------------------------------------------------- continuations

  /** After the first n events, no other client of the service of c sends a request. */
  predicate QuietFrom(events: seq<Event>, n: nat, c: nat, name: string) {
    |events| <= n ||
    var before := events[..|events| - 1];
    QuietFrom(before, n, c, name)
    && (Run(before).Some? ==> !OtherSends(Run(before).value, events[|events| - 1], c, name))
  }

  lemma {:induction false} QuietKeepsOwn(events: seq<Event>, events': seq<Event>, c: nat)
    requires Run(events).Some? && Run(events').Some? && events <= events'
    requires c < |Run(events).value.clients| && !ForeignOnTopics(Run(events).value, c)
    requires QuietFrom(events', |events|, c, Run(events).value.clients[c].name)
    ensures var st, st' := Run(events).value, Run(events').value;
            var name, g := st.clients[c].name, st.clients[c].guid;
            && c < |st'.clients| && st'.clients[c].name == name && st'.clients[c].guid == g
            && OwnTopics(st', name, g) && OwnReturns(st', c, |st.returned|, g)
    decreases |events'|
  {
    var st := Run(events).value;
    var name, g := st.clients[c].name, st.clients[c].guid;
    if |events'| == |events| {
      assert events' == events;
      RunKeepsTaken(events);
      assert OwnTopics(st, name, g) by {
        forall s, id | 0 <= s < |st.services| && st.services[s].name == name && id in st.services[s].taken
          ensures id.guid == g
        {
          assert OnTopic(st.network, ServiceTopic(name, Rq), id);
        }
      }
    } else {
      var before, e := events'[..|events'| - 1], events'[|events'| - 1];
      QuietKeepsOwn(events, before, c);
      var mid := Run(before).value;
      RunKeepsInv(before);
      IsClient(mid, c, name, g, e);
      NextKeepsOwnTopics(mid, e, c, name, g);
      NextKeepsOwnReturns(mid, e, c, |st.returned|, name, g);
    }
  }

  lemma ForeignIffGuid(events: seq<Event>, r: nat, c: nat)
    requires Run(events).Some? && c < |Run(events).value.clients| && r < |Run(events).value.returned|
    requires Run(events).value.returned[r].client == c
    ensures Foreign(Run(events).value, r, c) <==>
            Run(events).value.returned[r].id.guid != Run(events).value.clients[c].guid
  {
    var st := Run(events).value;
    EveryResponseHasOneRequest(events, r);
    var k :| 0 <= k < |st.sent| && st.sent[k].id == st.returned[r].id;
    forall j | 0 <= j < |st.sent| && st.sent[j].id == st.returned[r].id
      ensures st.sent[j].client == c <==> st.returned[r].id.guid == st.clients[c].guid
    {
      ResponseIsOwnIffGuidMatches(events, r, j);
    }
  }

  lemma KnownIsOthers(st: State, c: nat, id: RequestId) returns (k: nat)
    requires SentInv(st.clients, st.sent) && c < |st.clients| && id.guid != st.clients[c].guid
    requires Known(st.sent, id, st.clients[c].name)
    ensures k < |st.sent| && st.sent[k].service == st.clients[c].name && st.sent[k].client != c
  {
    k :| 0 <= k < |st.sent| && st.sent[k].id == id && st.sent[k].service == st.clients[c].name;
  }

  /** A foreign header there was stamped by another client of the same service. */
  lemma ForeignWasSent(events: seq<Event>, c: nat) returns (k: nat)
    requires Run(events).Some? && c < |Run(events).value.clients| && ForeignOnTopics(Run(events).value, c)
    ensures var st := Run(events).value;
            k < |st.sent| && st.sent[k].service == st.clients[c].name && st.sent[k].client != c
  {
    var st := Run(events).value;
    RunKeepsInv(events);
    var p: Prefix, id: RequestId :|
      OnTopic(st.network, ServiceTopic(st.clients[c].name, p), id) && id.guid != st.clients[c].guid;
    var msg :| (ServiceTopic(st.clients[c].name, p), msg) in st.network && Decode(msg) == Some(id);
    HeaderIsKnown(st, st.clients[c].name, p, msg);
    k := KnownIsOthers(st, c, id);
  }

  /** Some way on, without further requests of others, hands client c a foreign response. */
  ghost predicate MayTakeForeign(events: seq<Event>, c: nat)
    requires Run(events).Some? && c < |Run(events).value.clients|
  {
    exists events': seq<Event>, r: nat ::
      && events <= events' && QuietFrom(events', |events|, c, Run(events).value.clients[c].name)
      && Run(events').Some? && |Run(events).value.returned| <= r < |Run(events').value.returned|
      && Run(events').value.returned[r].client == c && Foreign(Run(events').value, r, c)
  }

  lemma ExtendQuietly(events: seq<Event>, now: seq<Event>, st: State, e: Event, c: nat, name: string)
    returns (next: seq<Event>, st': State)
    requires events <= now && QuietFrom(now, |events|, c, name) && !e.SendRequest?
    requires Run(now) == Some(st) && Enabled(st, e)
    ensures events <= next && QuietFrom(next, |events|, c, name)
    ensures Run(next) == Some(st') && st' == Next(st, e)
  {
    next, st' := now + [e], Next(st, e);
    assert next[..|now|] == now && next[|now|] == e;
  }

  /** A message with a foreign header on a topic of c can be brought to c. */
  lemma BringForeign(events: seq<Event>, c: nat, p: Prefix, msg: Message, id: RequestId)
    returns (events': seq<Event>, st': State)
    requires Run(events).Some? && LiveClient(Run(events).value, c)
    requires (ServiceTopic(Run(events).value.clients[c].name, p), msg) in Run(events).value.network
    requires Decode(msg) == Some(id)
    ensures events <= events' && QuietFrom(events', |events|, c, Run(events).value.clients[c].name)
    ensures Run(events') == Some(st') && st'.clients == Run(events).value.clients
    ensures var n := |Run(events).value.returned|;
            |st'.returned| == n + 1 && st'.returned[n].client == c && st'.returned[n].id == id
  {
    var st := Run(events).value;
    var name := st.clients[c].name;
    events', st' := events, st;
    var reply := msg;
    if p == Rq {
      RunKeepsInv(events);
      HeaderIsKnown(st, name, Rq, msg);
      DecodeStamped(id, []);
      reply := Encode(id) + [];
      var s := |st.services|;
      events', st' := ExtendQuietly(events, events', st', CreateService(name), c, name);
      events', st' := ExtendQuietly(events, events', st', TakeRequest(s, msg, true), c, name);
      events', st' := ExtendQuietly(events, events', st', SendResponse(s, id, [], true), c, name);
    }
    events', st' := ExtendQuietly(events, events', st', TakeResponse(c, reply, true), c, name);
  }

  /** The exact condition, in the state before the call: without further requests of other
      clients of the service, a live client can still be handed a foreign response if and only
      if a foreign header lies on one of its two topics. */
  lemma MayTakeForeignIff(events: seq<Event>, c: nat)
    requires Run(events).Some? && LiveClient(Run(events).value, c)
    ensures MayTakeForeign(events, c) <==> ForeignOnTopics(Run(events).value, c)
  {
    var st := Run(events).value;
    var name, g := st.clients[c].name, st.clients[c].guid;
    if MayTakeForeign(events, c) && !ForeignOnTopics(st, c) {
      var events': seq<Event>, r: nat :|
        && events <= events' && QuietFrom(events', |events|, c, name)
        && Run(events').Some? && |st.returned| <= r < |Run(events').value.returned|
        && Run(events').value.returned[r].client == c && Foreign(Run(events').value, r, c);
      QuietKeepsOwn(events, events', c);
      ForeignIffGuid(events', r, c);
      assert false;
    }
    if ForeignOnTopics(st, c) {
      var p: Prefix, id: RequestId :| OnTopic(st.network, ServiceTopic(name, p), id) && id.guid != g;
      var msg :| (ServiceTopic(name, p), msg) in st.network && Decode(msg) == Some(id);
      var events', st' := BringForeign(events, c, p, msg, id);
      ForeignIffGuid(events', |st.returned|, c);
      assert Foreign(st', |st.returned|, c);
    }
  }
}
