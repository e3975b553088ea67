/** Collecting the services visible in the graph: endpoints are visited one by one, and
    each service found is recorded once. */
module ServiceList {
  import opened Common
  import opened ServiceNames

  datatype Entry = Entry(name: string, typeName: Option<string>)

  // ----------------------------------------------------------- specification

  /** The first entry with the name, or the length of the list when there is none. */
  function IndexOf(list: seq<Entry>, name: string): (i: nat)
    ensures i <= |list| && (i < |list| ==> list[i].name == name)
    ensures forall k :: 0 <= k < i ==> list[k].name != name
  {
    if list == [] || list[0].name == name then 0 else 1 + IndexOf(list[1..], name)
  }

  predicate Has(list: seq<Entry>, name: string) { IndexOf(list, name) < |list| }

  /** Adding an endpoint: a new name goes to the end, a known one may gain its type. */
  function Added(list: seq<Entry>, e: Entry): seq<Entry> {
    if Has(list, e.name) then
      var i := IndexOf(list, e.name);
      if list[i].typeName.None? && e.typeName.Some? then list[i := e] else list
    else list + [e]
  }

  function Collected(found: seq<Entry>): seq<Entry> {
    if found == [] then []
    else Added(Collected(found[..|found| - 1]), found[|found| - 1])
  }

  /** An endpoint shown to the visitor. `typeKept` says whether the copy of its service
      type could be allocated; when not, the type counts as unknown. */
  datatype Visit = Visit(topic: string, messageType: string, typeKept: bool) {
    function Type(): Option<string> { if typeKept then ServiceType(messageType) else None }
  }

  /** What an endpoint contributes when both directions are collected (`prefix == NULL`). */
  function Found(v: Visit): Option<Entry> {
    match NameFromTopic(v.topic, Rq)
    case Some(n) => Some(Entry(n, v.Type()))
    case None =>
      match NameFromTopic(v.topic, Rr)
      case Some(n) => Some(Entry(n, v.Type()))
      case None => None
  }

  function FoundAll(visits: seq<Visit>): seq<Entry> {
    if visits == [] then [] else
      FoundAll(visits[..|visits| - 1]) +
      (match Found(visits[|visits| - 1]) case Some(e) => [e] case None => [])
  }

  // -------------------------------------------------- what collecting yields

  /** The first type known for `name`, in visiting order. */
  function FirstType(found: seq<Entry>, name: string): Option<string> {
    if found == [] then None
    else if found[0].name == name && found[0].typeName.Some? then found[0].typeName
    else FirstType(found[1..], name)
  }

  lemma {:induction false} FirstTypeSnoc(found: seq<Entry>, e: Entry, name: string)
    ensures FirstType(found + [e], name) ==
            if FirstType(found, name).Some? then FirstType(found, name)
            else if e.name == name then e.typeName else None
  {
    if found == [] {
      assert (found + [e])[1..] == [];
    } else {
      FirstTypeSnoc(found[1..], e, name);
      assert (found + [e])[1..] == found[1..] + [e];
    }
  }

  lemma {:induction false} IndexOfSnoc(found: seq<Entry>, e: Entry, name: string)
    ensures IndexOf(found + [e], name) ==
            if Has(found, name) then IndexOf(found, name) else if e.name == name then |found| else |found| + 1
  {
    if found == [] {
      assert found + [e] == [e] && [e][1..] == [];
    } else {
      assert (found + [e])[1..] == found[1..] + [e];
      IndexOfSnoc(found[1..], e, name);
    }
  }

  /** The place of a name depends on the names alone. */
  lemma SameIndex(list: seq<Entry>, list': seq<Entry>, name: string)
    requires |list| == |list'| && forall k :: 0 <= k < |list| ==> list'[k].name == list[k].name
    ensures IndexOf(list', name) == IndexOf(list, name)
  {
    var i, i' := IndexOf(list, name), IndexOf(list', name);
    assert i < |list| ==> list'[i].name == name;
    assert i' < |list'| ==> list[i'].name == name;
  }

  ghost predicate SameNames(found: seq<Entry>, list: seq<Entry>) {
    forall n :: Has(list, n) <==> Has(found, n)
  }

  ghost predicate OwnTypes(found: seq<Entry>, list: seq<Entry>) {
    forall k :: 0 <= k < |list| ==> list[k].typeName == FirstType(found, list[k].name)
  }

  ghost predicate InOrder(found: seq<Entry>, list: seq<Entry>) {
    forall j, k :: 0 <= j < k < |list| ==> IndexOf(found, list[j].name) < IndexOf(found, list[k].name)
  }

  /** Collecting any visits yields each visited service once, in first-seen order, each
      with the first type known for it. */
  ghost predicate Exact(found: seq<Entry>, list: seq<Entry>) {
    SameNames(found, list) && OwnTypes(found, list) && InOrder(found, list)
  }

  /** Adding keeps the names in place; a new name comes last. */
  lemma AddedShape(list: seq<Entry>, e: Entry)
    ensures var list' := Added(list, e);
            && |list'| == |list| + (if Has(list, e.name) then 0 else 1)
            && (forall k :: 0 <= k < |list| ==> list'[k].name == list[k].name)
            && (!Has(list, e.name) ==> list' == list + [e])
  {
  }

  lemma AddedNames(found: seq<Entry>, list: seq<Entry>, e: Entry)
    requires SameNames(found, list)
    ensures SameNames(found + [e], Added(list, e))
  {
    AddedShape(list, e);
    forall n ensures Has(Added(list, e), n) <==> Has(found + [e], n) {
      IndexOfSnoc(found, e, n);
      assert Has(list, n) <==> Has(found, n);
      if Has(list, e.name) { SameIndex(list, Added(list, e), n); } else { IndexOfSnoc(list, e, n); }
    }
  }

  lemma Listed(list: seq<Entry>, k: nat)
    requires k < |list|
    ensures Has(list, list[k].name)
  {
  }

  lemma AddedOrder(found: seq<Entry>, list: seq<Entry>, e: Entry)
    requires SameNames(found, list) && InOrder(found, list)
    ensures InOrder(found + [e], Added(list, e))
  {
    AddedShape(list, e);
    var list' := Added(list, e);
    forall j, k | 0 <= j < k < |list'|
      ensures IndexOf(found + [e], list'[j].name) < IndexOf(found + [e], list'[k].name)
    {
      IndexOfSnoc(found, e, list'[j].name);
      IndexOfSnoc(found, e, list'[k].name);
      Listed(list, j);
      assert Has(list, list[j].name) <==> Has(found, list[j].name);
      if k < |list| {
        Listed(list, k);
        assert Has(list, list[k].name) <==> Has(found, list[k].name);
        assert IndexOf(found, list[j].name) < IndexOf(found, list[k].name);
      }
    }
  }

  /** A known name keeps its type; only a missing one is filled in. */
  lemma AddedTypes(found: seq<Entry>, list: seq<Entry>, e: Entry)
    requires SameNames(found, list) && OwnTypes(found, list) && InOrder(found, list)
    ensures OwnTypes(found + [e], Added(list, e))
  {
    AddedShape(list, e);
    var i, list' := IndexOf(list, e.name), Added(list, e);
    forall k | 0 <= k < |list'| ensures list'[k].typeName == FirstType(found + [e], list'[k].name) {
      FirstTypeSnoc(found, e, list'[k].name);
      if k == |list| {
        assert Has(list, e.name) <==> Has(found, e.name);
        NoTypeBefore(found, e.name);
      } else {
        assert list[k].typeName == FirstType(found, list[k].name);
        if i < |list| && k != i { OnlyOnce(found, list, i, k); }
        assert i < |list| && k != i ==> list[k].name != e.name;
        assert i == |list| ==> list[k].name != e.name;
      }
    }
  }

  lemma OnlyOnce(found: seq<Entry>, list: seq<Entry>, j: nat, k: nat)
    requires InOrder(found, list) && j < |list| && k < |list| && j != k
    ensures list[j].name != list[k].name
  {
    if j < k {
      assert IndexOf(found, list[j].name) < IndexOf(found, list[k].name);
    } else {
      assert IndexOf(found, list[k].name) < IndexOf(found, list[j].name);
    }
  }

  lemma AddedExact(found: seq<Entry>, list: seq<Entry>, e: Entry)
    requires Exact(found, list)
    ensures Exact(found + [e], Added(list, e))
  {
    AddedNames(found, list, e);
    AddedOrder(found, list, e);
    AddedTypes(found, list, e);
  }

  lemma {:induction false} NoTypeBefore(found: seq<Entry>, name: string)
    requires !Has(found, name)
    ensures FirstType(found, name) == None
  {
    if found != [] {
      assert found[0].name != name;
      assert forall i :: 0 <= i < |found| - 1 ==> found[1..][i] == found[i + 1];
      NoTypeBefore(found[1..], name);
    }
  }

  lemma {:induction false} CollectedExact(found: seq<Entry>)
    ensures Exact(found, Collected(found))
  {
    if found != [] {
      var init, last := found[..|found| - 1], found[|found| - 1];
      CollectedExact(init);
      AddedExact(init, Collected(init), last);
      assert found == init + [last];
    }
  }

  /** One more visit. */
  lemma CollectedStep(visits: seq<Visit>, i: nat)
    requires i < |visits|
    ensures Collected(FoundAll(visits[..i + 1])) ==
            match Found(visits[i])
            case None => Collected(FoundAll(visits[..i]))
            case Some(e) => Added(Collected(FoundAll(visits[..i])), e)
  {
    var before, upTo := FoundAll(visits[..i]), visits[..i + 1];
    assert upTo[..|upTo| - 1] == visits[..i] && upTo[|upTo| - 1] == visits[i];
    match Found(visits[i]) {
      case None => FoundAllSkips(upTo);
      case Some(e) =>
        FoundAllSnoc(upTo, e);
        assert (before + [e])[..|before|] == before;
    }
  }

  lemma FoundAllSnoc(visits: seq<Visit>, e: Entry)
    requires visits != [] && Found(visits[|visits| - 1]) == Some(e)
    ensures FoundAll(visits) == FoundAll(visits[..|visits| - 1]) + [e]
  {
  }

  lemma FoundAllSkips(visits: seq<Visit>)
    requires visits != [] && Found(visits[|visits| - 1]) == None
    ensures FoundAll(visits) == FoundAll(visits[..|visits| - 1])
  {
  }

  // ------------------------------------ endpoints of services, in any order

  /** The endpoints a service `n` of type `types(n)` registers in the graph. */
  ghost predicate IsServiceEndpoint(v: Visit, n: string, types: string -> string) {
    || (v.topic == ServiceTopic(n, Rq) && v.messageType == types(n) + REQUEST_SUFFIX)
    || (v.topic == ServiceTopic(n, Rr) && v.messageType == types(n) + RESPONSE_SUFFIX)
  }

  ghost predicate VisitsSome(v: Visit, names: set<string>, types: string -> string) {
    exists n :: n in names && IsServiceEndpoint(v, n, types)
  }

  lemma FoundService(v: Visit, n: string, types: string -> string)
    requires IsServiceEndpoint(v, n, types) && IsTypePath(types(n))
    ensures Found(v) == Some(Entry(n, if v.typeKept then Some(types(n)) else None))
  {
    TopicRoundTrip(n, Rq, Rq);
    TopicRoundTrip(n, Rr, Rq);
    TopicRoundTrip(n, Rr, Rr);
    ServiceTypeIff(v.messageType, types(n));
  }

  ghost predicate Typed(found: seq<Entry>, types: string -> string) {
    forall i :: 0 <= i < |found| ==> found[i].typeName.None? || found[i].typeName == Some(types(found[i].name))
  }

  ghost predicate Known(found: seq<Entry>, name: string) {
    exists i :: 0 <= i < |found| && found[i].name == name && found[i].typeName.Some?
  }

  lemma {:induction false} FirstTypeTyped(found: seq<Entry>, types: string -> string, name: string)
    requires Typed(found, types)
    ensures FirstType(found, name) == if Known(found, name) then Some(types(name)) else None
  {
    if found != [] {
      assert forall i :: 0 <= i < |found| - 1 ==> found[1..][i] == found[i + 1];
      assert Known(found, name) <==>
             (found[0].name == name && found[0].typeName.Some?) || Known(found[1..], name) by {
        if i :| 0 < i < |found| && found[i].name == name && found[i].typeName.Some? {
          assert found[1..][i - 1] == found[i];
        }
      }
      FirstTypeTyped(found[1..], types, name);
    }
  }

  /** The entry of a visit: its service, and its type when the copy was kept. */
  ghost predicate Records(e: Entry, v: Visit, types: string -> string) {
    && IsServiceEndpoint(v, e.name, types)
    && e.typeName == if v.typeKept then Some(types(e.name)) else None
  }

  lemma RecordOf(v: Visit, names: set<string>, types: string -> string) returns (e: Entry)
    requires forall n :: n in names ==> IsTypePath(types(n))
    requires VisitsSome(v, names, types)
    ensures Found(v) == Some(e) && Records(e, v, types)
  {
    var n :| n in names && IsServiceEndpoint(v, n, types);
    FoundService(v, n, types);
    e := Found(v).value;
  }

  ghost predicate AllRecord(found: seq<Entry>, visits: seq<Visit>, types: string -> string) {
    |found| == |visits| && forall i :: 0 <= i < |found| ==> Records(found[i], visits[i], types)
  }

  lemma AllRecordSnoc(found: seq<Entry>, visits: seq<Visit>, types: string -> string, e: Entry, v: Visit)
    requires AllRecord(found, visits, types) && Records(e, v, types)
    ensures AllRecord(found + [e], visits + [v], types)
  {
  }

  lemma {:induction false} FoundAllServices(visits: seq<Visit>, names: set<string>, types: string -> string)
    requires forall n :: n in names ==> IsTypePath(types(n))
    requires forall i :: 0 <= i < |visits| ==> VisitsSome(visits[i], names, types)
    ensures AllRecord(FoundAll(visits), visits, types)
  {
    if visits != [] {
      var init, v := visits[..|visits| - 1], visits[|visits| - 1];
      FoundAllServices(init, names, types);
      var e := RecordOf(v, names, types);
      FoundAllSnoc(visits, e);
      AllRecordSnoc(FoundAll(init), init, types, e, v);
      assert visits == init + [v];
    }
  }

  ghost predicate Visited(visits: seq<Visit>, n: string, types: string -> string) {
    exists i :: 0 <= i < |visits| && IsServiceEndpoint(visits[i], n, types)
  }

  ghost predicate VisitedKept(visits: seq<Visit>, n: string, types: string -> string) {
    exists i :: 0 <= i < |visits| && visits[i].typeKept && IsServiceEndpoint(visits[i], n, types)
  }

  lemma HasIffVisited(found: seq<Entry>, visits: seq<Visit>, types: string -> string, n: string)
    requires AllRecord(found, visits, types)
    ensures Has(found, n) <==> Visited(visits, n, types)
  {
    if Has(found, n) {
      assert Records(found[IndexOf(found, n)], visits[IndexOf(found, n)], types);
    }
    if i :| 0 <= i < |visits| && IsServiceEndpoint(visits[i], n, types) {
      assert Records(found[i], visits[i], types);
      SameService(visits[i], n, found[i].name, types);
    }
  }

  lemma KnownIffKept(found: seq<Entry>, visits: seq<Visit>, types: string -> string, n: string)
    requires AllRecord(found, visits, types)
    ensures Known(found, n) <==> VisitedKept(visits, n, types)
  {
    if i :| 0 <= i < |found| && found[i].name == n && found[i].typeName.Some? {
      assert Records(found[i], visits[i], types);
    }
    if i :| 0 <= i < |visits| && visits[i].typeKept && IsServiceEndpoint(visits[i], n, types) {
      assert Records(found[i], visits[i], types);
      SameService(visits[i], n, found[i].name, types);
    }
  }

  /** Visiting request and response endpoints of services in any order, any number of
      times, lists exactly the visited services, each once, and each with its own type
      unless no visit of it could keep the type. */
  lemma CollectServices(visits: seq<Visit>, names: set<string>, types: string -> string)
    requires forall n :: n in names ==> IsTypePath(types(n))
    requires forall i :: 0 <= i < |visits| ==> VisitsSome(visits[i], names, types)
    ensures var list := Collected(FoundAll(visits));
            && (forall j, k :: 0 <= j < k < |list| ==> list[j].name != list[k].name)
            && (forall n :: Has(list, n) <==> Visited(visits, n, types))
            && (forall k :: 0 <= k < |list| ==>
                  list[k].typeName ==
                  if VisitedKept(visits, list[k].name, types) then Some(types(list[k].name)) else None)
  {
    var found := FoundAll(visits);
    var list := Collected(found);
    FoundAllServices(visits, names, types);
    assert AllRecord(found, visits, types);
    CollectedExact(found);
    forall j, k | 0 <= j < k < |list| ensures list[j].name != list[k].name { OnlyOnce(found, list, j, k); }
    forall n ensures Has(list, n) <==> Visited(visits, n, types) {
      assert Has(list, n) <==> Has(found, n);
      HasIffVisited(found, visits, types, n);
    }
    assert Typed(found, types) by {
      forall i | 0 <= i < |found| ensures found[i].typeName.None? || found[i].typeName == Some(types(found[i].name)) {
        assert Records(found[i], visits[i], types);
      }
    }
    forall k | 0 <= k < |list|
      ensures list[k].typeName == if VisitedKept(visits, list[k].name, types) then Some(types(list[k].name)) else None
    {
      FirstTypeTyped(found, types, list[k].name);
      KnownIffKept(found, visits, types, list[k].name);
    }
  }

  lemma SameService(v: Visit, n: string, m: string, types: string -> string)
    requires IsServiceEndpoint(v, n, types) && IsServiceEndpoint(v, m, types)
    ensures n == m
  {
    if v.topic == ServiceTopic(n, Rq) {
      if v.topic == ServiceTopic(m, Rq) { TopicInjective(n, Rq, m, Rq); } else { TopicInjective(n, Rq, m, Rr); }
    } else {
      if v.topic == ServiceTopic(m, Rq) { TopicInjective(n, Rr, m, Rq); } else { TopicInjective(n, Rr, m, Rr); }
    }
  }

  // --------------------------------------------------------- the C structure

  /** Which of the allocations of one `hdds_service_list_add` call succeed. */
  datatype AddOutcome = AddOutcome(grow: bool, copyName: bool, copyType: bool)

  class List {
    var entries: array?<Entry>
    var size: nat
    var capacity: nat

    ghost predicate Valid()
      reads this
    {
      && size <= capacity
      && (entries == null ==> capacity == 0)
      && (entries != null ==> entries.Length == capacity)
    }

    function Contents(): seq<Entry>
      reads this, entries
      requires Valid()
    {
      if entries == null then [] else entries[..size]
    }

    constructor ()
      ensures Valid() && Contents() == [] && entries == null
    {
      entries, size, capacity := null, 0, 0;
    }

    /** The doubling reallocation of `hdds_service_list_add`. */
    method Grow()
      requires Valid() && size == capacity
      modifies this
      ensures Valid() && size == old(size) < capacity && Contents() == old(Contents())
      ensures entries != null && fresh(entries)
    {
      var newCapacity := if capacity == 0 then 4 else capacity * 2;
      var copy := new Entry[newCapacity](_ => Entry("", None));
      for i := 0 to size
        invariant Valid() && size == old(size) == capacity && entries == old(entries)
        invariant entries != null ==> copy[..i] == entries[..i]
        invariant Contents() == old(Contents())
      {
        copy[i] := entries[i];
        assert copy[..i + 1] == copy[..i] + [copy[i]];
      }
      entries, capacity := copy, newCapacity;
    }

    /** `hdds_service_list_add`: on any allocation failure the listed services stay as they were. */
    method Add(e: Entry, o: AddOutcome) returns (r: Ret)
      requires Valid()
      modifies this, entries
      ensures Valid() && (entries == old(entries) || fresh(entries))
      ensures r == Ok || r == BadAlloc
      ensures r == Ok ==> Contents() == Added(old(Contents()), e)
      ensures r == BadAlloc ==> Contents() == old(Contents()) && !(o.grow && o.copyName && o.copyType)
    {
      var i := 0;
      while i < size
        invariant 0 <= i <= size && Valid()
        invariant forall k :: 0 <= k < i ==> Contents()[k].name != e.name
      {
        if entries[i].name == e.name {
          assert Contents()[i].name == e.name;
          assert IndexOf(Contents(), e.name) == i;
          if entries[i].typeName.None? && e.typeName.Some? {
            if !o.copyType {
              return BadAlloc;
            }
            entries[i] := Entry(entries[i].name, e.typeName);
            assert Contents() == old(Contents())[i := e];
          }
          return Ok;
        }
        i := i + 1;
      }
      assert !Has(Contents(), e.name);
      if size + 1 > capacity {
        if !o.grow {
          return BadAlloc;
        }
        Grow();
      }
      if !o.copyName {
        return BadAlloc;
      }
      if e.typeName.Some? && !o.copyType {
        return BadAlloc;
      }
      entries[size] := e;
      size := size + 1;
      assert Contents() == old(Contents()) + [e];
      return Ok;
    }

    /** The endpoint visitor, whose failing status stops the collection. */
    method Collect(visits: seq<Visit>, outcomes: seq<AddOutcome>) returns (r: Ret)
      requires Valid() && Contents() == [] && entries == null
      requires |outcomes| == |visits|
      modifies this
      ensures Valid()
      ensures r == Ok ==> Contents() == Collected(FoundAll(visits))
      ensures r != Ok ==>
                r == BadAlloc && exists i :: 0 <= i < |visits| && Contents() == Collected(FoundAll(visits[..i]))
    {
      r := Ok;
      var i := 0;
      while i < |visits| && r == Ok
        invariant 0 <= i <= |visits| && Valid()
        invariant entries == null || fresh(entries)
        invariant r == Ok ==> Contents() == Collected(FoundAll(visits[..i]))
        invariant r != Ok ==> r == BadAlloc && i > 0 && Contents() == Collected(FoundAll(visits[..i - 1]))
      {
        CollectedStep(visits, i);
        var found := Found(visits[i]);
        if found.Some? { r := Add(found.value, outcomes[i]); }
        i := i + 1;
      }
      assert i == |visits| ==> visits[..i] == visits;
    }
  }
}
