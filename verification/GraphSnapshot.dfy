/** `rmw_get_topic_names_and_types`: a count pass and a fill pass over a graph that may move
    in between, tried up to three times, with every string on a ledger. */
module GraphSnapshot {
  import opened Common
  import opened Resources

  datatype Entry = Entry(name: string, typeName: string)

  /** One traversal of the graph: it may fail after visiting some entries, or it visits all
      entries of the graph at one version. */
  datatype Traversal<+E> = Broken(error: Failure, visited: seq<E>) | Seen(version: nat, entries: seq<E>)

  datatype Attempt<+E> = Attempt(count: Traversal<E>, fill: Traversal<E>)

  const MAX_ATTEMPTS := 3

  // ---------------------------------------------------------- specification

  datatype Outcome<+E> = Got(entries: seq<E>) | Failed(ret: Ret)

  /** What the attempts amount to when memory does not run out. A graph that grew between
      the two passes is an error at once; one that moved otherwise is tried again. */
  function Collected<E>(attempts: seq<Attempt<E>>): Outcome<E> {
    if attempts == [] then Failed(Error) else
      var a := attempts[0];
      if a.count.Broken? then Failed(a.count.error.Mapped())
      else if a.fill.Broken? then Failed(a.fill.error.Mapped())
      else if |a.fill.entries| > |a.count.entries| then Failed(Error)
      else if a.count.version == a.fill.version && |a.fill.entries| == |a.count.entries| then Got(a.fill.entries)
      else Collected(attempts[1..])
  }

  /** Both passes succeeded, at one version and with one count. */
  predicate Agrees<E>(a: Attempt<E>) {
    a.count.Seen? && a.fill.Seen? && a.count.version == a.fill.version && |a.count.entries| == |a.fill.entries|
  }

  /** Both passes succeeded and disagree, but the graph did not grow. */
  predicate Moved<E>(a: Attempt<E>) {
    a.count.Seen? && a.fill.Seen? && |a.fill.entries| <= |a.count.entries| && !Agrees(a)
  }

  predicate Settled<E>(attempts: seq<Attempt<E>>, i: nat) {
    i < |attempts| && Agrees(attempts[i]) && forall j :: 0 <= j < i ==> Moved(attempts[j])
  }

  /** Something is collected if and only if some attempt agrees and every one before it saw
      the graph move without growing; it is then what that attempt's fill pass visited. */
  lemma {:induction false} CollectedIff<E>(attempts: seq<Attempt<E>>, entries: seq<E>)
    ensures Collected(attempts) == Got(entries) <==>
            exists i :: 0 <= i < |attempts| && Settled(attempts, i) && attempts[i].fill.entries == entries
  {
    if attempts != [] {
      var a, rest := attempts[0], attempts[1..];
      CollectedIff(rest, entries);
      if Collected(attempts) == Got(entries) {
        if Moved(a) {
          var i :| 0 <= i < |rest| && Settled(rest, i) && rest[i].fill.entries == entries;
          assert Settled(attempts, i + 1);
        } else {
          assert Settled(attempts, 0);
        }
      }
      if i :| 0 <= i < |attempts| && Settled(attempts, i) && attempts[i].fill.entries == entries {
        if i > 0 {
          assert Moved(attempts[0]);
          assert forall j :: 0 <= j < i - 1 ==> rest[j] == attempts[j + 1];
          assert Settled(rest, i - 1);
        }
      }
    }
  }

  /** The attempt ends the search with an error: a pass failed, or the graph grew. */
  predicate Ends<E>(a: Attempt<E>, ret: Ret) {
    match a.count
    case Broken(error, _) => ret == error.Mapped()
    case Seen(_, counted) =>
      match a.fill
      case Broken(error, _) => ret == error.Mapped()
      case Seen(_, filled) => |filled| > |counted| && ret == Error
  }

  /** Collecting fails with a status if and only if some attempt ends with it after others that
      saw the graph move, or all attempts saw it move and the status is the general error. */
  lemma {:induction false} FailedIff<E>(attempts: seq<Attempt<E>>, ret: Ret)
    ensures Collected(attempts) == Failed(ret) <==>
            || (exists i :: 0 <= i < |attempts| && Ends(attempts[i], ret)
                            && forall j :: 0 <= j < i ==> Moved(attempts[j]))
            || (ret == Error && forall j :: 0 <= j < |attempts| ==> Moved(attempts[j]))
  {
    if attempts != [] {
      var a, rest := attempts[0], attempts[1..];
      FailedIff(rest, ret);
      assert forall j :: 0 <= j < |rest| ==> rest[j] == attempts[j + 1];
      if Moved(a) {
        assert Collected(attempts) == Collected(rest);
        if i :| 0 <= i < |rest| && Ends(rest[i], ret) && forall j :: 0 <= j < i ==> Moved(rest[j]) {
          assert Ends(attempts[i + 1], ret) && forall j :: 0 < j < i + 1 ==> attempts[j] == rest[j - 1];
        }
        if i :| 0 <= i < |attempts| && Ends(attempts[i], ret) && forall j :: 0 <= j < i ==> Moved(attempts[j]) {
          assert Ends(rest[i - 1], ret);
        }
      } else {
        assert Collected(attempts) == Failed(ret) <==> Ends(a, ret);
      }
    }
  }

  // ---------------------------------------------------------- remote topics

  /** Topics and their types. */
  type Topics = map<string, string>

  /** What a traversal of the topics visits: the local cache, and beside it what discovery
      has found, which may also supply a type that the cache lacks. */
  function Merge(local: Topics, found: Topics): Topics {
    map n | n in local.Keys + found.Keys ::
      if n in local && (local[n] != "" || n !in found) then local[n] else found[n]
  }

  /** The part of what discovery has found that shows. */
  function Shown(local: Topics, found: Topics): Topics {
    map n | n in found && (n !in local || (local[n] == "" && found[n] != "")) :: found[n]
  }

  /** The entries are the topics, each once, in some order. */
  ghost predicate Lists(entries: seq<Entry>, topics: Topics) {
    && (forall i :: 0 <= i < |entries| ==>
          entries[i].name in topics && topics[entries[i].name] == entries[i].typeName)
    && (forall n :: n in topics ==> Entry(n, topics[n]) in entries)
    && (forall i, j :: 0 <= i < j < |entries| ==> entries[i].name != entries[j].name)
  }

  ghost predicate Same(a: seq<Entry>, b: seq<Entry>) { forall e :: e in a <==> e in b }

  /** An attempt over a cache with contents `local(v)` at version v, while discovery had found
      `before` at the count pass and `after` at the fill pass. */
  ghost predicate Views(a: Attempt<Entry>, local: nat -> Topics, before: Topics, after: Topics) {
    && (a.count.Seen? ==> Lists(a.count.entries, Merge(local(a.count.version), before)))
    && (a.fill.Seen? ==> Lists(a.fill.entries, Merge(local(a.fill.version), after)))
  }

  lemma SameIffTopics(a: seq<Entry>, s: Topics, b: seq<Entry>, t: Topics)
    requires Lists(a, s) && Lists(b, t)
    ensures Same(a, b) <==> s == t
  {
    if Same(a, b) {
      forall n | n in s ensures n in t && t[n] == s[n] { assert Entry(n, s[n]) in b; }
      forall n | n in t ensures n in s { assert Entry(n, t[n]) in a; }
    }
    if s == t {
      forall e ensures e in a <==> e in b {
        if e in a { assert Entry(e.name, t[e.name]) in b; }
        if e in b { assert Entry(e.name, s[e.name]) in a; }
      }
    }
  }

  lemma MergeSameIff(local: Topics, d: Topics, d': Topics)
    ensures Merge(local, d) == Merge(local, d') <==> Shown(local, d) == Shown(local, d')
  {
    var m, m', s, s' := Merge(local, d), Merge(local, d'), Shown(local, d), Shown(local, d');
    if m == m' {
      forall n | n in s ensures n in s' && s'[n] == s[n] { assert m[n] == d[n] && n in m'; }
      forall n | n in s' ensures n in s { assert m'[n] == d'[n] && n in m; }
    }
    if s == s' {
      forall n | n in m ensures n in m' && m'[n] == m[n] { assert n in s <==> n in s'; }
      forall n | n in m' ensures n in m { assert n in s <==> n in s'; }
    }
  }

  /** A successful collection is a whole view of the graph: all topics of the local cache at
      the version of both passes, merged with what discovery had found at the fill pass. The
      count pass saw the same topics if and only if nothing that shows of discovery changed. */
  lemma CollectedIsView(attempts: seq<Attempt<Entry>>, local: nat -> Topics,
                        before: seq<Topics>, after: seq<Topics>, entries: seq<Entry>) returns (i: nat)
    requires |before| == |after| == |attempts| && Collected(attempts) == Got(entries)
    requires forall k :: 0 <= k < |attempts| ==> Views(attempts[k], local, before[k], after[k])
    ensures i < |attempts| && Agrees(attempts[i])
    ensures var v := attempts[i].count.version;
            && Lists(entries, Merge(local(v), after[i]))
            && (Same(attempts[i].count.entries, entries) <==> Shown(local(v), before[i]) == Shown(local(v), after[i]))
  {
    CollectedIff(attempts, entries);
    i :| 0 <= i < |attempts| && Settled(attempts, i) && attempts[i].fill.entries == entries;
    var v := attempts[i].count.version;
    assert Views(attempts[i], local, before[i], after[i]);
    SameIffTopics(attempts[i].count.entries, Merge(local(v), before[i]), entries, Merge(local(v), after[i]));
    MergeSameIff(local(v), before[i], after[i]);
  }

  /** The version does not tell: one remote topic replaced by another between the passes goes
      unnoticed, and the result is not what the count pass saw. */
  lemma RemoteSwapUnnoticed(x: Entry, y: Entry, local: nat -> Topics)
    requires x.name != y.name && local(0) == map[]
    ensures var a := Attempt(Seen(0, [x]), Seen(0, [y]));
            && Views(a, local, map[x.name := x.typeName], map[y.name := y.typeName])
            && Collected([a]) == Got([y]) && !Same([x], [y])
  {
    assert x in [x] && x !in [y];
  }

  // ----------------------------------------------------------------- output

  datatype Block = Block(text: string, memory: Resource)

  /** One row of the output: a name and a one-element array of types. */
  datatype Row = Empty | Full(name: Block, list: Resource, typeName: Block) {
    function Owned(): set<Resource> {
      match this case Empty => {} case Full(n, a, t) => {n.memory, a, t.memory}
    }

    /** A full row holds three different blocks. */
    predicate Proper() {
      this.Full? ==> name.memory != list && name.memory != typeName.memory && list != typeName.memory
    }
  }

  function RowsOwned(rows: seq<Row>): set<Resource> {
    set i, r | 0 <= i < |rows| && r in rows[i].Owned() :: r
  }

  lemma RowsOwnedStore(rows: seq<Row>, i: nat, row: Row)
    requires i < |rows| && rows[i] == Empty
    ensures RowsOwned(rows[i := row]) == RowsOwned(rows) + row.Owned()
  {
    var rows' := rows[i := row];
    forall r | r in RowsOwned(rows) + row.Owned() ensures r in RowsOwned(rows') {
      if r in row.Owned() {
        assert r in rows'[i].Owned();
      } else {
        var k :| 0 <= k < |rows| && r in rows[k].Owned();
        assert r in rows'[k].Owned();
      }
    }
  }

  /** No block stands in a table twice. */
  ghost predicate Apart(rows: seq<Row>) {
    && (forall i :: 0 <= i < |rows| ==> rows[i].Proper())
    && (forall i, j :: 0 <= i < j < |rows| ==> rows[i].Owned() !! rows[j].Owned())
  }

  lemma ApartStore(rows: seq<Row>, i: nat, row: Row)
    requires Apart(rows) && i < |rows| && row.Proper() && row.Owned() !! RowsOwned(rows)
    ensures Apart(rows[i := row])
  {
    forall k | 0 <= k < |rows| ensures row.Owned() !! rows[k].Owned() {
      assert rows[k].Owned() <= RowsOwned(rows);
    }
  }

  /** The rows up to the next one own what those before it and that one own, apart. */
  lemma RowsOwnedNext(rows: seq<Row>, i: nat)
    requires Apart(rows) && i < |rows|
    ensures RowsOwned(rows[..i + 1]) == RowsOwned(rows[..i]) + rows[i].Owned()
    ensures rows[i].Owned() !! RowsOwned(rows[..i]) && rows[i].Owned() <= RowsOwned(rows)
  {
    var before, upTo := rows[..i], rows[..i + 1];
    forall r | r in RowsOwned(before) + rows[i].Owned() ensures r in RowsOwned(upTo) {
      if r in rows[i].Owned() {
        assert r in upTo[i].Owned();
      } else {
        var k :| 0 <= k < i && r in before[k].Owned();
        assert r in upTo[k].Owned();
      }
    }
    forall r | r in RowsOwned(before) ensures r !in rows[i].Owned() {
      var k :| 0 <= k < i && r in before[k].Owned();
      assert rows[k].Owned() !! rows[i].Owned();
    }
  }

  method FreeRow(l: Ledger, row: Row)
    requires l.Valid() && row.Proper() && row.Owned() <= l.live
    modifies l
    ensures l.Valid() && l.next == old(l.next) && l.live == old(l.live) - row.Owned()
  {
    if row.Full? {
      l.Release(Some(row.name.memory));
      l.Release(Some(row.typeName.memory));
      l.Release(Some(row.list));
    }
  }

  /** Free the rows one by one. Every block is released while it is alive, so none twice. */
  method FreeRows(l: Ledger, rows: seq<Row>)
    requires l.Valid() && Apart(rows) && RowsOwned(rows) <= l.live
    modifies l
    ensures l.Valid() && l.next == old(l.next) && l.live == old(l.live) - RowsOwned(rows)
  {
    for i := 0 to |rows|
      invariant l.Valid() && l.next == old(l.next) && l.live == old(l.live) - RowsOwned(rows[..i])
    {
      RowsOwnedNext(rows, i);
      FreeRow(l, rows[i]);
    }
    assert rows[..|rows|] == rows;
  }

  predicate Holds(row: Row, e: Entry) {
    row.Full? && row.name.text == e.name && row.typeName.text == e.typeName
  }

  /** `rmw_names_and_types_t`; its arrays are absent before init and after fini. */
  class Table {
    var header: Option<Resource>
    var rows: seq<Row>

    ghost function Owned(): set<Resource> reads this { Held(header) + RowsOwned(rows) }

    /** No block is owned twice. */
    ghost predicate Sound() reads this { Apart(rows) && Held(header) !! RowsOwned(rows) }

    predicate Blank() reads this { header == None && rows == [] }

    method Init(l: Ledger, size: nat, ok: bool) returns (done: bool)
      requires l.Valid() && Blank()
      modifies this, l
      ensures l.Valid() && done == ok && l.live == old(l.live) + Owned() && Owned() !! old(l.live) && Sound()
      ensures if ok then rows == seq(size, _ => Empty) else Blank()
    {
      header := l.Acquire(Memory, ok);
      done := header.Some?;
      if done { rows := seq(size, _ => Empty); }
    }

    /** Everything the table holds is released once, and nothing else. */
    method Fini(l: Ledger)
      requires l.Valid() && Sound() && Owned() <= l.live
      modifies this, l
      ensures l.Valid() && Blank() && l.live == old(l.live) - old(Owned())
    {
      FreeRows(l, rows);
      l.Release(header);
      header, rows := None, [];
    }
  }

  // ---------------------------------------------------------------- filling

  /** The first rows hold the entries visited so far, the others are still empty. */
  ghost predicate Filled(rows: seq<Row>, entries: seq<Entry>) {
    && |entries| <= |rows|
    && (forall i :: 0 <= i < |entries| ==> Holds(rows[i], entries[i]))
    && (forall i :: |entries| <= i < |rows| ==> rows[i] == Empty)
  }

  /** The table owns all there is beside `base`, and no block twice. */
  ghost predicate Good(l: Ledger, t: Table, base: set<Resource>)
    reads l, t
  {
    l.Valid() && t.Sound() && l.live == base + t.Owned() && base !! t.Owned()
  }

  /** The three allocations of a row, undone when a later one fails. The allocation that
      would get an id in `fails` fails. */
  method AcquireRow(l: Ledger, e: Entry, fails: set<nat>) returns (row: Row)
    requires l.Valid()
    modifies l
    ensures l.Valid() && l.live == old(l.live) + row.Owned() && row.Owned() !! old(l.live) && row.Proper()
    ensures if row.Full? then Holds(row, e) else fails != {}
  {
    var name := l.Acquire(Memory, l.next !in fails);
    if name.None? { return Empty; }
    var list := l.Acquire(Memory, l.next !in fails);
    if list.None? {
      l.Release(name);
      return Empty;
    }
    var typeName := l.Acquire(Memory, l.next !in fails);
    if typeName.None? {
      l.Release(list);
      l.Release(name);
      return Empty;
    }
    row := Full(Block(e.name, name.value), list.value, Block(e.typeName, typeName.value));
  }

  /** `hdds_topic_fill_cb` on a context that has not failed yet. */
  method Visit(l: Ledger, t: Table, index: nat, e: Entry, fails: set<nat>,
               ghost before: seq<Entry>, ghost base: set<Resource>)
    returns (status: Ret)
    requires Good(l, t, base) && Filled(t.rows, before) && index == |before|
    modifies l, t`rows
    ensures Good(l, t, base) && |t.rows| == |old(t.rows)|
    ensures if |before| == |t.rows| then status == Error
            else status == Ok || (status == BadAlloc && fails != {})
    ensures status == Ok ==> Filled(t.rows, before + [e])
  {
    if index >= |t.rows| { return Error; }
    var row := AcquireRow(l, e, fails);
    if row.Empty? { return BadAlloc; }
    RowsOwnedStore(t.rows, index, row);
    ApartStore(t.rows, index, row);
    t.rows := t.rows[index := row];
    status := Ok;
  }

  /** A fill pass: after a failure the remaining visits do nothing. */
  method Fill(l: Ledger, t: Table, entries: seq<Entry>, fails: set<nat>, ghost base: set<Resource>)
    returns (index: nat, status: Ret)
    requires Good(l, t, base) && Filled(t.rows, [])
    modifies l, t`rows
    ensures Good(l, t, base) && |t.rows| == |old(t.rows)|
    ensures status == Ok ==> index == |entries| <= |t.rows| && Filled(t.rows, entries)
    ensures status != Ok ==> fails != {} || (status == Error && |entries| > |t.rows|)
    ensures |entries| > |t.rows| ==> status != Ok
  {
    index, status := 0, Ok;
    for i := 0 to |entries|
      invariant Good(l, t, base) && |t.rows| == |old(t.rows)|
      invariant status == Ok ==> index == i && Filled(t.rows, entries[..i])
      invariant status != Ok ==> fails != {} || (status == Error && |entries| > |t.rows|)
    {
      if status == Ok {
        status := Visit(l, t, index, entries[i], fails, entries[..i], base);
        assert entries[..i + 1] == entries[..i] + [entries[i]];
        if status == Ok { index := index + 1; }
      }
    }
    assert entries[..|entries|] == entries;
  }

  /** `rmw_get_topic_names_and_types`. On success the table holds one whole graph; on every
      failure it is blank and nothing of it is left alive. Without allocation failures the
      outcome is the specified one. */
  method GetTopics(l: Ledger, t: Table, attempts: seq<Attempt<Entry>>, fails: set<nat>) returns (ret: Ret)
    requires l.Valid() && t.Blank() && |attempts| == MAX_ATTEMPTS
    modifies l, t
    ensures Good(l, t, old(l.live))
    ensures ret != Ok ==> t.Blank()
    ensures ret == Ok ==> Collected(attempts).Got? && Filled(t.rows, Collected(attempts).entries)
                          && |t.rows| == |Collected(attempts).entries|
    ensures fails == {} ==> (Collected(attempts).Got? ==> ret == Ok)
    ensures fails == {} ==> (Collected(attempts).Failed? ==> ret == Collected(attempts).ret)
  {
    ghost var base := l.live;
    for k := 0 to MAX_ATTEMPTS
      invariant l.Valid() && l.live == base && t.Blank()
      invariant Collected(attempts) == Collected(attempts[k..])
    {
      var a := attempts[k];
      assert attempts[k..][1..] == attempts[k + 1..];
      if a.count.Broken? { return a.count.error.Mapped(); }
      var count := |a.count.entries|;
      var done := t.Init(l, count, l.next !in fails);
      if !done { return BadAlloc; }
      var visited := if a.fill.Broken? then a.fill.visited else a.fill.entries;
      var index, status := Fill(l, t, visited, fails, base);
      if a.fill.Broken? {
        t.Fini(l);
        return a.fill.error.Mapped();
      }
      if status != Ok {
        t.Fini(l);
        return status;
      }
      if a.count.version == a.fill.version && index == count { return Ok; }
      t.Fini(l);
    }
    return Error;
  }
}
