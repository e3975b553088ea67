/** Taking messages from a subscription, decoded or serialized, through its content filter. */
module Takes {
  import opened Common
  import opened SampleTake
  import opened FilterSyntax
  import opened FilterValues
  import CF = ContentFilter

  /** A decoded message: its fields by offset. */
  datatype Message = Message(fields: map<nat, Field>)

  /** A subscription with introspection: its filter, and how payloads decode. The dynamic
      decoder is a second chance that only the decoding take has. */
  datatype Config = Config(
    filter: Option<CF.Filter>, decode: Sample -> Option<Message>, dynamic: Sample -> Option<Message>)

  /** A message of the subscription's type has the filter's member, with its type. */
  predicate Typed(filter: Option<CF.Filter>, m: Message) {
    filter.Some? ==> filter.value.offset in m.fields && HasType(m.fields[filter.value.offset], filter.value.typ)
  }

  /** `rmw_hdds_content_filter_matches`: without a filter everything passes. */
  predicate Passes(filter: Option<CF.Filter>, m: Message) {
    match filter
    case None => true
    case Some(f) => Typed(filter, m) && Matches(f.typ, f.op, f.value, m.fields[f.offset])
  }

  const BUFFER := 1024

  /** Whether the temporary message for the filter and the room in the output can be had. */
  datatype Room = Room(message: bool, output: bool)

  const PLENTY := Room(true, true)

  /** What a call makes of the sample the buffer loop delivered. */
  datatype Verdict = Surfaced | Filtered | Undecodable | NoRoom

  function Decode(c: Config, s: Sample): Option<Message> {
    if c.decode(s).Some? then c.decode(s) else c.dynamic(s)
  }

  function DecodedVerdict(c: Config, s: Sample): Verdict {
    if s == [] then Surfaced else
      var m := Decode(c, s);
      if m.None? then Undecodable else if Passes(c.filter, m.value) then Surfaced else Filtered
  }

  function SerializedVerdict(c: Config, s: Sample, room: Room): Verdict {
    if s == [] then Surfaced
    else if c.filter.Some? && !room.message then NoRoom
    else if c.filter.Some? && c.decode(s).None? then Undecodable
    else if c.filter.Some? && !Passes(c.filter, c.decode(s).value) then Filtered
    else if !room.output then NoRoom
    else Surfaced
  }

  /** Samples the decoding take surfaces: empty ones, and those that one of the two decoders reads
      as a message that passes. It fails on those that neither reads. */
  lemma DecodedVerdictIff(c: Config, s: Sample)
    ensures DecodedVerdict(c, s) == Surfaced <==>
            || s == [] || (c.decode(s).Some? && Passes(c.filter, c.decode(s).value))
            || (c.decode(s).None? && c.dynamic(s).Some? && Passes(c.filter, c.dynamic(s).value))
    ensures DecodedVerdict(c, s) == Undecodable <==> s != [] && c.decode(s).None? && c.dynamic(s).None?
    ensures DecodedVerdict(c, s) != NoRoom
  {
  }

  /** The serialized take needs a message only to evaluate a filter, and room for what it returns. */
  lemma SerializedVerdictIff(c: Config, s: Sample, room: Room)
    ensures SerializedVerdict(c, s, room) == Surfaced <==>
            || s == []
            || (room.output
                && (c.filter.None? || (room.message && c.decode(s).Some? && Passes(c.filter, c.decode(s).value))))
    ensures SerializedVerdict(c, s, room) == Undecodable <==>
            s != [] && c.filter.Some? && room.message && c.decode(s).None?
    ensures SerializedVerdict(c, s, room) == Filtered <==>
            s != [] && c.filter.Some? && room.message && c.decode(s).Some? && !Passes(c.filter, c.decode(s).value)
  {
  }

  /** With room enough the two takes judge a sample alike exactly when introspection can decode
      it, or it is empty, or both have the other reason to surface or refuse it. */
  lemma VerdictsAgreeIff(c: Config, s: Sample)
    ensures DecodedVerdict(c, s) == SerializedVerdict(c, s, PLENTY) <==>
            || s == [] || c.decode(s).Some?
            || (if c.filter.None? then c.dynamic(s).Some? else c.dynamic(s).None?)
  {
    if s != [] && c.decode(s).None? && c.filter.None? && c.dynamic(s).Some? {
      assert Passes(c.filter, c.dynamic(s).value);
    }
  }

  // ------------------------------------------------------------------- calls

  datatype Result = Result(ret: Ret, taken: bool, sample: Sample)

  /** What a call returns for a verdict; only a surfaced sample reaches the caller. */
  predicate Reports(r: Result, v: Verdict, s: Sample) {
    match v
    case Surfaced => r == Result(Ok, true, s)
    case Filtered => r == Result(Ok, false, [])
    case Undecodable => r.ret != Ok && !r.taken
    case NoRoom => r == Result(BadAlloc, false, [])
  }

  /** The buffer loop ended early: nothing is taken. */
  ghost predicate BrokenOff(r: Result, o: Oracle, before: seq<Sample>, after: seq<Sample>) {
    (r.ret == BadAlloc || r.ret == Error) && !r.taken && Interrupted(o, before, after, BUFFER)
  }

  /** `rmw_take`. A message in shared memory comes first, and no filter is applied to it.
      Otherwise one call consumes one deliverable sample, whatever becomes of it. */
  method TakeDecoded(reader: Reader, c: Config, shm: Option<Message>, o: Oracle)
    returns (r: Result, message: Option<Message>)
    modifies reader
    ensures shm.Some? ==> reader.queue == old(reader.queue) && r == Result(Ok, true, []) && message == shm
    ensures shm.None? && !BrokenOff(r, o, old(reader.queue), reader.queue) ==>
              match DeliverIndex(old(reader.queue), BUFFER)
              case None => r == Result(Ok, false, []) && message == None && reader.queue == []
              case Some(k) =>
                var s := old(reader.queue)[k];
                && reader.queue == old(reader.queue)[k + 1..] && Reports(r, DecodedVerdict(c, s), s)
                && message == if r.taken && s != [] then Decode(c, s) else None
  {
    if shm.Some? { return Result(Ok, true, []), shm; }
    var out := TakeGrowing(reader, BUFFER, o);
    match out {
      case NoMemory => r, message := Result(BadAlloc, false, []), None;
      case Failed => r, message := Result(Error, false, []), None;
      case Empty => r, message := Result(Ok, false, []), None;
      case Taken(s) =>
        if s == [] { return Result(Ok, true, s), None; }
        var m := c.decode(s);
        if m.None? { m := c.dynamic(s); }
        if m.None? { return Result(Error, false, []), None; }
        if !Passes(c.filter, m.value) { return Result(Ok, false, []), None; }
        r, message := Result(Ok, true, s), m;
    }
  }

  /** `rmw_take_serialized_message`: decoding happens only to evaluate a filter. The sample is
      gone even when there is no room to evaluate or return it. */
  method TakeSerialized(reader: Reader, c: Config, room: Room, o: Oracle) returns (r: Result)
    modifies reader
    ensures !BrokenOff(r, o, old(reader.queue), reader.queue) ==>
              match DeliverIndex(old(reader.queue), BUFFER)
              case None => r == Result(Ok, false, []) && reader.queue == []
              case Some(k) =>
                var s := old(reader.queue)[k];
                reader.queue == old(reader.queue)[k + 1..] && Reports(r, SerializedVerdict(c, s, room), s)
  {
    var out := TakeGrowing(reader, BUFFER, o);
    match out {
      case NoMemory => r := Result(BadAlloc, false, []);
      case Failed => r := Result(Error, false, []);
      case Empty => r := Result(Ok, false, []);
      case Taken(s) =>
        if s == [] { return Result(Ok, true, s); }
        if c.filter.Some? {
          if !room.message { return Result(BadAlloc, false, []); }
          var m := c.decode(s);
          if m.None? { return Result(Error, false, []); }
          if !Passes(c.filter, m.value) { return Result(Ok, false, []); }
        }
        if !room.output { return Result(BadAlloc, false, []); }
        r := Result(Ok, true, s);
    }
  }

  // -------------------------------------------------------------------- runs

  datatype Call = Decoded | Serialized

  function VerdictOf(call: Call, c: Config, s: Sample): Verdict {
    match call case Decoded => DecodedVerdict(c, s) case Serialized => SerializedVerdict(c, s, PLENTY)
  }

  /** What a sequence of calls brings up from a queue. */
  function Surfaces(q: seq<Sample>, calls: seq<Call>, c: Config): seq<Sample>
    decreases calls
  {
    if calls == [] then [] else
      match DeliverIndex(q, BUFFER)
      case None => []
      case Some(k) =>
        (if VerdictOf(calls[0], c, q[k]) == Surfaced then [q[k]] else []) + Surfaces(q[k + 1..], calls[1..], c)
  }

  /** What one call brings up from a queue, and the queue it leaves. */
  predicate Takes1(q: seq<Sample>, call: Call, c: Config, one: seq<Sample>, rest: seq<Sample>) {
    match DeliverIndex(q, BUFFER)
    case None => one == [] && rest == []
    case Some(k) => rest == q[k + 1..] && one == if VerdictOf(call, c, q[k]) == Surfaced then [q[k]] else []
  }

  lemma SurfacesStep(q: seq<Sample>, calls: seq<Call>, c: Config, one: seq<Sample>, rest: seq<Sample>)
    requires calls != [] && Takes1(q, calls[0], c, one, rest)
    ensures Surfaces(q, calls, c) == one + Surfaces(rest, calls[1..], c)
  {
  }

  /** One call, with no shared memory and nothing failing. */
  method TakeOne(reader: Reader, c: Config, call: Call) returns (taken: seq<Sample>)
    modifies reader
    ensures Takes1(old(reader.queue), call, c, taken, reader.queue)
  {
    var o := Oracle(false, _ => false, _ => false);
    assert NoFailure(o);
    var r;
    if call == Decoded {
      var m;
      r, m := TakeDecoded(reader, c, None, o);
    } else {
      r := TakeSerialized(reader, c, PLENTY, o);
    }
    taken := if r.taken then [r.sample] else [];
  }

  lemma Regroup(all: seq<Sample>, taken: seq<Sample>, one: seq<Sample>, more: seq<Sample>)
    requires all == taken + (one + more)
    ensures all == (taken + one) + more
  {
  }

  /** Making the calls one after the other brings up just that. */
  method TakeAll(reader: Reader, c: Config, calls: seq<Call>) returns (taken: seq<Sample>)
    modifies reader
    ensures taken == Surfaces(old(reader.queue), calls, c)
  {
    taken := [];
    ghost var all := Surfaces(reader.queue, calls, c);
    assert calls[0..] == calls;
    for i := 0 to |calls|
      invariant all == taken + Surfaces(reader.queue, calls[i..], c)
    {
      ghost var q, rest := reader.queue, calls[i..];
      assert rest[0] == calls[i] && rest[1..] == calls[i + 1..];
      var one := TakeOne(reader, c, calls[i]);
      SurfacesStep(q, rest, c, one, reader.queue);
      Regroup(all, taken, one, Surfaces(reader.queue, calls[i + 1..], c));
      taken := taken + one;
    }
    assert calls[|calls|..] == [];
  }

  /** The samples the buffer loop can deliver, in order, at most n of them. */
  function Deliverable(q: seq<Sample>, n: nat): seq<Sample>
    decreases n
  {
    if n == 0 then [] else
      match DeliverIndex(q, BUFFER)
      case None => []
      case Some(k) => [q[k]] + Deliverable(q[k + 1..], n - 1)
  }

  /** A sample that is empty, or whose message passes the filter. */
  predicate Kept(c: Config, s: Sample) {
    s == [] || (c.decode(s).Some? && Passes(c.filter, c.decode(s).value))
  }

  function Filter(samples: seq<Sample>, c: Config): seq<Sample> {
    if samples == [] then [] else (if Kept(c, samples[0]) then [samples[0]] else []) + Filter(samples[1..], c)
  }

  predicate Decodable(q: seq<Sample>, c: Config) { forall s :: s in q && s != [] ==> c.decode(s).Some? }

  lemma FilterCons(s: Sample, samples: seq<Sample>, c: Config)
    ensures Filter([s] + samples, c) == (if Kept(c, s) then [s] else []) + Filter(samples, c)
  {
    assert ([s] + samples)[1..] == samples;
  }

  lemma SurfacedIffKept(call: Call, c: Config, s: Sample)
    requires s != [] ==> c.decode(s).Some?
    ensures VerdictOf(call, c, s) == Surfaced <==> Kept(c, s)
  {
    VerdictsAgreeIff(c, s);
  }

  /** Whatever mixture of the two takes is used, the messages that come up are the same: the
      deliverable samples, in order, that pass the filter. */
  lemma {:induction false} SameMessages(q: seq<Sample>, calls: seq<Call>, c: Config)
    requires Decodable(q, c)
    ensures Surfaces(q, calls, c) == Filter(Deliverable(q, |calls|), c)
    decreases calls
  {
    if calls != [] && DeliverIndex(q, BUFFER).Some? {
      var k := DeliverIndex(q, BUFFER).value;
      var rest, one := q[k + 1..], if Kept(c, q[k]) then [q[k]] else [];
      assert q[k] in q && Decodable(rest, c);
      SurfacedIffKept(calls[0], c, q[k]);
      SurfacesStep(q, calls, c, one, rest);
      SameMessages(rest, calls[1..], c);
      FilterCons(q[k], Deliverable(rest, |calls| - 1), c);
    }
  }

  function Prefix(q: seq<Sample>, n: nat): seq<Sample> { if n < |q| then q[..n] else q }

  lemma PrefixStep(q: seq<Sample>, n: nat)
    requires n > 0 && q != []
    ensures Prefix(q, n) == [q[0]] + Prefix(q[1..], n - 1)
  {
  }

  lemma DeliverableStep(q: seq<Sample>, n: nat)
    requires n > 0 && q != [] && |q[0]| <= BUFFER
    ensures Deliverable(q, n) == [q[0]] + Deliverable(q[1..], n - 1)
  {
    assert DeliverIndex(q, BUFFER) == Some(0);
  }

  predicate Small(q: seq<Sample>) { forall i :: 0 <= i < |q| ==> |q[i]| <= BUFFER }

  lemma {:induction false} DeliverableSmall(q: seq<Sample>, n: nat)
    requires Small(q)
    ensures Deliverable(q, n) == Prefix(q, n)
    decreases n
  {
    if n > 0 && q != [] {
      PrefixStep(q, n);
      DeliverableStep(q, n);
      assert Small(q[1..]);
      DeliverableSmall(q[1..], n - 1);
    }
  }

  /** When every sample fits the first buffer, that is the queue itself, filtered: as many
      samples as there are calls, in order, that pass. */
  lemma QueueFiltered(q: seq<Sample>, calls: seq<Call>, c: Config)
    requires Decodable(q, c) && Small(q)
    ensures Surfaces(q, calls, c) == Filter(Prefix(q, |calls|), c)
  {
    SameMessages(q, calls, c);
    DeliverableSmall(q, |calls|);
  }

  lemma {:induction false} InFilter(samples: seq<Sample>, c: Config, s: Sample)
    ensures s in Filter(samples, c) <==> s in samples && Kept(c, s)
  {
    if samples != [] { InFilter(samples[1..], c, s); }
  }

  /** Everything brought up is from the queue and passes the filter, unless it is empty. */
  lemma OnlyPassing(q: seq<Sample>, calls: seq<Call>, c: Config, s: Sample)
    requires Decodable(q, c) && s in Surfaces(q, calls, c)
    ensures s in q && Kept(c, s)
  {
    SameMessages(q, calls, c);
    InFilter(Deliverable(q, |calls|), c, s);
    DeliverableInQueue(q, |calls|, s);
  }

  lemma DeliverableUnfolds(q: seq<Sample>, n: nat, k: nat)
    requires n > 0 && DeliverIndex(q, BUFFER) == Some(k)
    ensures Deliverable(q, n) == [q[k]] + Deliverable(q[k + 1..], n - 1)
  {
  }

  lemma NoneDeliverable(q: seq<Sample>, n: nat)
    requires n == 0 || DeliverIndex(q, BUFFER) == None
    ensures Deliverable(q, n) == []
  {
  }

  lemma InCons(x: Sample, rest: seq<Sample>, s: Sample)
    requires s in [x] + rest
    ensures s == x || s in rest
  {
  }

  lemma InTail(q: seq<Sample>, k: nat, s: Sample)
    requires k <= |q| && s in q[k..]
    ensures s in q
  {
  }

  lemma {:induction false} DeliverableInQueue(q: seq<Sample>, n: nat, s: Sample)
    requires s in Deliverable(q, n)
    ensures s in q
    decreases n
  {
    if n == 0 || DeliverIndex(q, BUFFER) == None {
      NoneDeliverable(q, n);
    } else {
      var k := DeliverIndex(q, BUFFER).value;
      DeliverableUnfolds(q, n, k);
      InCons(q[k], Deliverable(q[k + 1..], n - 1), s);
      if s != q[k] {
        DeliverableInQueue(q[k + 1..], n - 1, s);
        InTail(q, k + 1, s);
      }
    }
  }

  // ------------------------------------------------- from expression to message

  /** The comparison of a filter is true of a message of its type. */
  predicate Says(filter: Option<CF.Filter>, m: Message) {
    filter.Some? ==>
      Typed(filter, m) &&
      var f, field := filter.value, m.fields[filter.value.offset];
      !field.OtherField? && (field.TextField? <==> f.value.TextValue?) && Meaning(f.op, f.value, field)
  }

  /** The filter that any sequence of set-content-filter calls leaves passes a message of the
      type exactly when the comparison it was set to is true. */
  lemma ReachablePasses(members: Option<seq<CF.Member>>, sets: seq<CF.Call>, strtod: string -> Option<real>, m: Message)
    requires forall p :: p in CF.After(members, sets, strtod).params ==> '\0' !in p
    requires Typed(CF.After(members, sets, strtod).filter, m)
    ensures Passes(CF.After(members, sets, strtod).filter, m) <==> Says(CF.After(members, sets, strtod).filter, m)
  {
    var f := CF.After(members, sets, strtod).filter;
    if f.Some? { CF.ReachableMeans(members, sets, strtod, m.fields[f.value.offset]); }
  }

  /** The sample decodes to a message of the subscription's type. */
  predicate WellFormed(c: Config, s: Sample) { c.decode(s).Some? && Typed(c.filter, c.decode(s).value) }

  /** The k-th of the calls is the last one that gave an expression. */
  ghost predicate LastSet(sets: seq<CF.Call>, k: nat) {
    && k < |sets| && sets[k].options.expression.Some?
    && forall i :: k < i < |sets| ==> sets[i].options.expression.None?
  }

  /** That call installs the filter. */
  ghost predicate SetBy(members: Option<seq<CF.Member>>, set_: CF.Call, strtod: string -> Option<real>, f: CF.Filter)
    requires set_.options.expression.Some?
  {
    CF.Installs(members, set_.options.expression.value, set_.options.params, set_.copies, strtod, f)
  }

  /** Every non-empty sample in the queue fits the first buffer and decodes to a message of the
      subscription's type, and there are as many takes as samples. */
  predicate Served(q: seq<Sample>, calls: seq<Call>, c: Config) {
    |calls| >= |q| && Small(q) && forall x :: x in q && x != [] ==> WellFormed(c, x)
  }

  lemma SurfacesIffPasses(q: seq<Sample>, calls: seq<Call>, c: Config, s: Sample)
    requires Served(q, calls, c) && s in q && s != []
    ensures WellFormed(c, s) && (s in Surfaces(q, calls, c) <==> Passes(c.filter, c.decode(s).value))
  {
    assert WellFormed(c, s);
    QueueFiltered(q, calls, c);
    InFilter(q, c, s);
  }

  /** From the calls that set the filter to the messages that come up. When the last call with
      an expression installs a filter, written as p, enough takes of either kind surface exactly
      the queued samples of which its operator and parameter, as written, are true. */
  lemma SurfacesMean(members: Option<seq<CF.Member>>, sets: seq<CF.Call>, k: nat, strtod: string -> Option<real>,
                     p: Pieces, cl: Clause, f: CF.Filter, q: seq<Sample>, calls: seq<Call>, c: Config, s: Sample)
    requires LastSet(sets, k) && SetBy(members, sets[k], strtod, f)
    requires p.Text() == sets[k].options.expression.value && p.Mean(cl)
    requires CF.Asks(members.value, cl, CF.Texts(sets[k].options.params), strtod, f)
    requires '\0' !in sets[k].options.params[cl.index].value
    requires c.filter == CF.After(members, sets, strtod).filter
    requires Served(q, calls, c) && s in q && s != []
    ensures c.filter == Some(f) && WellFormed(c, s)
    ensures s in Surfaces(q, calls, c) <==>
            SaysText(p.o, f.typ, sets[k].options.params[cl.index].value, c.decode(s).value.fields[f.offset], strtod)
  {
    var o := sets[k].options;
    CF.LastCallDecides(members, sets, k, strtod);
    CF.InstalledIff(members, o.expression.value, o.params, sets[k].copies, strtod, f);
    SurfacesIffPasses(q, calls, c, s);
    CF.WrittenMeans(members.value, p, cl, CF.Texts(o.params), strtod, f, c.decode(s).value.fields[f.offset]);
  }

  /** When it installs none, or no call gave an expression, everything in the queue surfaces. */
  lemma SurfacesAll(members: Option<seq<CF.Member>>, sets: seq<CF.Call>, strtod: string -> Option<real>,
                    q: seq<Sample>, calls: seq<Call>, c: Config, s: Sample)
    requires forall k: nat :: LastSet(sets, k) ==> forall f :: !SetBy(members, sets[k], strtod, f)
    requires c.filter == CF.After(members, sets, strtod).filter
    requires Served(q, calls, c) && s in q && s != []
    ensures s in Surfaces(q, calls, c)
  {
    SurfacesIffPasses(q, calls, c, s);
    if c.filter.Some? {
      CF.NothingSet(members, sets, strtod);
      var k := FindLastSet(sets);
      var o := sets[k].options;
      CF.LastCallDecides(members, sets, k, strtod);
      CF.InstalledIff(members, o.expression.value, o.params, sets[k].copies, strtod, c.filter.value);
      assert SetBy(members, sets[k], strtod, c.filter.value);
    }
  }

  lemma {:induction false} FindLastSet(sets: seq<CF.Call>) returns (k: nat)
    requires exists i :: 0 <= i < |sets| && sets[i].options.expression.Some?
    ensures LastSet(sets, k)
  {
    k := |sets| - 1;
    if sets[k].options.expression.None? {
      var front := sets[..k];
      assert forall i :: 0 <= i < |front| ==> front[i] == sets[i];
      k := FindLastSet(front);
    }
  }
}
