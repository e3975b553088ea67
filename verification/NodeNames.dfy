/** `rmw_get_node_names`: the count-and-fill loop of the graph over two string arrays. */
module NodeNames {
  import opened Common
  import opened Resources
  import opened GraphSnapshot

  datatype Node = Node(name: string, namespace: string)

  // ---------------------------------------------------------- specification

  /** An empty count ends the search at once, so its fill pass does not take place. */
  function Patched(a: Attempt<Node>): Attempt<Node> {
    if a.count.Seen? && a.count.entries == [] then Attempt(a.count, a.count) else a
  }

  function PatchedAll(attempts: seq<Attempt<Node>>): seq<Attempt<Node>> {
    if attempts == [] then [] else [Patched(attempts[0])] + PatchedAll(attempts[1..])
  }

  /** What the attempts amount to when memory does not run out. */
  function Listed(attempts: seq<Attempt<Node>>): Outcome<Node> { Collected(PatchedAll(attempts)) }

  lemma ListedStep(attempts: seq<Attempt<Node>>, k: nat)
    requires k < |attempts|
    ensures var a := Patched(attempts[k]);
            Listed(attempts[k..]) ==
            if a.count.Broken? then Outcome.Failed(a.count.error.Mapped())
            else if a.fill.Broken? then Outcome.Failed(a.fill.error.Mapped())
            else if |a.fill.entries| > |a.count.entries| then Outcome.Failed(Error)
            else if a.count.version == a.fill.version && |a.fill.entries| == |a.count.entries| then Got(a.fill.entries)
            else Listed(attempts[k + 1..])
  {
    var rest := attempts[k..];
    assert rest[0] == attempts[k] && rest[1..] == attempts[k + 1..];
    var all := PatchedAll(rest);
    assert all[0] == Patched(attempts[k]) && all[1..] == PatchedAll(rest[1..]);
  }

  lemma {:induction false} PatchedAt(attempts: seq<Attempt<Node>>, i: nat)
    ensures |PatchedAll(attempts)| == |attempts|
    ensures i < |attempts| ==> PatchedAll(attempts)[i] == Patched(attempts[i])
  {
    if attempts != [] { PatchedAt(attempts[1..], if i == 0 then 0 else i - 1); }
  }

  predicate CountedNone(a: Attempt<Node>) { a.count.Seen? && a.count.entries == [] }

  /** The attempt ends the search with these nodes. */
  predicate Yields(a: Attempt<Node>, nodes: seq<Node>) {
    if CountedNone(a) then nodes == [] else Agrees(a) && a.fill.entries == nodes
  }

  /** Nodes are listed if and only if some attempt counted none, and they are none, or agrees,
      and they are what its fill pass visited; and in every attempt before it some were counted
      and the graph moved without growing. */
  lemma ListedIff(attempts: seq<Attempt<Node>>, nodes: seq<Node>)
    ensures Listed(attempts) == Got(nodes) <==>
            exists i :: 0 <= i < |attempts| && Yields(attempts[i], nodes)
                        && forall j :: 0 <= j < i ==> Moved(attempts[j]) && !CountedNone(attempts[j])
  {
    var all := PatchedAll(attempts);
    CollectedIff(all, nodes);
    PatchedAt(attempts, 0);
    forall k | 0 <= k < |attempts| ensures all[k] == Patched(attempts[k]) { PatchedAt(attempts, k); }
    if i :| 0 <= i < |all| && Settled(all, i) && all[i].fill.entries == nodes {
      assert Yields(attempts[i], nodes);
      forall j | 0 <= j < i ensures Moved(attempts[j]) && !CountedNone(attempts[j]) { assert Moved(all[j]); }
    }
    if i :| 0 <= i < |attempts| && Yields(attempts[i], nodes)
            && forall j :: 0 <= j < i ==> Moved(attempts[j]) && !CountedNone(attempts[j]) {
      assert Settled(all, i) && all[i].fill.entries == nodes;
    }
  }

  /** Nodes come from the local cache alone, sorted, so its version identifies them. */
  ghost predicate Consistent(graph: nat -> seq<Node>, a: Attempt<Node>) {
    && (a.count.Seen? ==> a.count.entries == graph(a.count.version))
    && (a.fill.Seen? ==> a.fill.entries == graph(a.fill.version))
  }

  /** So the nodes listed are those of one whole graph, and both passes saw it. */
  lemma ListedIsGraph(attempts: seq<Attempt<Node>>, graph: nat -> seq<Node>, nodes: seq<Node>)
    returns (i: nat)
    requires forall k :: 0 <= k < |attempts| ==> Consistent(graph, attempts[k])
    requires Listed(attempts) == Got(nodes)
    ensures i < |attempts| && attempts[i].count.Seen?
    ensures nodes == attempts[i].count.entries == graph(attempts[i].count.version)
    ensures nodes != [] ==> attempts[i].fill == attempts[i].count
  {
    ListedIff(attempts, nodes);
    i :| 0 <= i < |attempts| && Yields(attempts[i], nodes);
    assert Consistent(graph, attempts[i]);
  }

  // ----------------------------------------------------------------- output

  function CellsOwned(cells: seq<Option<Block>>): set<Resource> {
    set i | 0 <= i < |cells| && cells[i].Some? :: cells[i].value.memory
  }

  lemma CellsOwnedStore(cells: seq<Option<Block>>, i: nat, b: Block)
    requires i < |cells| && cells[i] == None
    ensures CellsOwned(cells[i := Some(b)]) == CellsOwned(cells) + {b.memory}
  {
    var cells' := cells[i := Some(b)];
    forall r | r in CellsOwned(cells) + {b.memory} ensures r in CellsOwned(cells') {
      if r == b.memory {
        assert cells'[i].value.memory == r;
      } else {
        var k :| 0 <= k < |cells| && cells[k].Some? && cells[k].value.memory == r;
        assert cells'[k].value.memory == r;
      }
    }
  }

  /** No block stands in an array twice. */
  ghost predicate CellsApart(cells: seq<Option<Block>>) {
    forall i, j :: 0 <= i < j < |cells| && cells[i].Some? && cells[j].Some? ==>
      cells[i].value.memory != cells[j].value.memory
  }

  lemma CellsApartStore(cells: seq<Option<Block>>, i: nat, b: Block)
    requires CellsApart(cells) && i < |cells| && b.memory !in CellsOwned(cells)
    ensures CellsApart(cells[i := Some(b)])
  {
    forall k | 0 <= k < |cells| && cells[k].Some? ensures cells[k].value.memory != b.memory {
      assert cells[k].value.memory in CellsOwned(cells);
    }
  }

  function CellHeld(cell: Option<Block>): Option<Resource> {
    match cell case None => None case Some(b) => Some(b.memory)
  }

  /** The cells up to the next one own what those before it and that one own, apart. */
  lemma CellsOwnedNext(cells: seq<Option<Block>>, i: nat)
    requires CellsApart(cells) && i < |cells|
    ensures CellsOwned(cells[..i + 1]) == CellsOwned(cells[..i]) + Held(CellHeld(cells[i]))
    ensures Held(CellHeld(cells[i])) !! CellsOwned(cells[..i]) && Held(CellHeld(cells[i])) <= CellsOwned(cells)
  {
    var before, upTo := cells[..i], cells[..i + 1];
    forall r | r in CellsOwned(before) + Held(CellHeld(cells[i])) ensures r in CellsOwned(upTo) {
      if r in CellsOwned(before) {
        var k :| 0 <= k < i && before[k].Some? && before[k].value.memory == r;
        assert upTo[k].value.memory == r;
      } else {
        assert upTo[i].value.memory == r;
      }
    }
  }

  /** Free the strings one by one. Each is released while it is alive, so none twice. */
  method FreeCells(l: Ledger, cells: seq<Option<Block>>)
    requires l.Valid() && CellsApart(cells) && CellsOwned(cells) <= l.live
    modifies l
    ensures l.Valid() && l.next == old(l.next) && l.live == old(l.live) - CellsOwned(cells)
  {
    for i := 0 to |cells|
      invariant l.Valid() && l.next == old(l.next) && l.live == old(l.live) - CellsOwned(cells[..i])
    {
      CellsOwnedNext(cells, i);
      l.Release(CellHeld(cells[i]));
    }
    assert cells[..|cells|] == cells;
  }

  /** `rcutils_string_array_t`; absent before init and after fini. */
  class StringArray {
    var header: Option<Resource>
    var cells: seq<Option<Block>>

    ghost function Owned(): set<Resource> reads this { Held(header) + CellsOwned(cells) }

    /** No block is owned twice. */
    ghost predicate Sound() reads this { CellsApart(cells) && Held(header) !! CellsOwned(cells) }

    predicate Blank() reads this { header == None && cells == [] }

    method Init(l: Ledger, size: nat, ok: bool) returns (done: bool)
      requires l.Valid() && Blank()
      modifies this, l
      ensures l.Valid() && done == ok && l.live == old(l.live) + Owned() && Owned() !! old(l.live) && Sound()
      ensures if ok then cells == seq(size, _ => None) else Blank()
    {
      header := l.Acquire(Memory, ok);
      done := header.Some?;
      if done { cells := seq(size, _ => None); }
    }

    method Fini(l: Ledger)
      requires l.Valid() && Sound() && Owned() <= l.live
      modifies this, l
      ensures l.Valid() && Blank() && l.live == old(l.live) - old(Owned())
    {
      FreeCells(l, cells);
      l.Release(header);
      header, cells := None, [];
    }
  }

  /** The first cells hold the texts given so far, the others are still empty. */
  ghost predicate Holds(cells: seq<Option<Block>>, texts: seq<string>) {
    && |texts| <= |cells|
    && (forall i :: 0 <= i < |texts| ==> cells[i].Some? && cells[i].value.text == texts[i])
    && (forall i :: |texts| <= i < |cells| ==> cells[i] == None)
  }

  ghost function NamesOf(nodes: seq<Node>): seq<string> { seq(|nodes|, i requires 0 <= i < |nodes| => nodes[i].name) }

  ghost function NamespacesOf(nodes: seq<Node>): seq<string> {
    seq(|nodes|, i requires 0 <= i < |nodes| => nodes[i].namespace)
  }

  /** Both arrays hold the nodes and own all there is beside `base`, no block twice. */
  ghost predicate Good(l: Ledger, names: StringArray, spaces: StringArray, base: set<Resource>, nodes: seq<Node>)
    reads l, names, spaces
  {
    && l.Valid() && names != spaces && |names.cells| == |spaces.cells| && names.Sound() && spaces.Sound()
    && l.live == base + names.Owned() + spaces.Owned() && base !! names.Owned() !! spaces.Owned()
    && Holds(names.cells, NamesOf(nodes)) && Holds(spaces.cells, NamespacesOf(nodes))
  }

  // ---------------------------------------------------------------- filling

  /** The two copies of a node's texts, undone when the second fails. */
  method CopyNode(l: Ledger, node: Node, fails: set<nat>) returns (copies: Option<(Block, Block)>)
    requires l.Valid()
    modifies l
    ensures l.Valid() && l.next >= old(l.next)
    ensures copies.None? ==> l.live == old(l.live) && fails != {}
    ensures copies.Some? ==>
              var (n, s) := copies.value;
              && n.text == node.name && s.text == node.namespace && n.memory != s.memory
              && {n.memory, s.memory} !! old(l.live) && l.live == old(l.live) + {n.memory, s.memory}
  {
    var name := l.Acquire(Memory, l.next !in fails);
    if name.None? { return None; }
    var space := l.Acquire(Memory, l.next !in fails);
    if space.None? {
      l.Release(name);
      return None;
    }
    return Some((Block(node.name, name.value), Block(node.namespace, space.value)));
  }

  lemma HoldsStore(cells: seq<Option<Block>>, texts: seq<string>, b: Block)
    requires Holds(cells, texts) && |texts| < |cells|
    ensures Holds(cells[|texts| := Some(b)], texts + [b.text])
  {
  }

  /** `hdds_node_fill_cb` on a context that has not failed yet. */
  method VisitNode(l: Ledger, names: StringArray, spaces: StringArray, index: nat, node: Node, fails: set<nat>,
                   ghost before: seq<Node>, ghost base: set<Resource>) returns (status: Ret)
    requires Good(l, names, spaces, base, before) && index == |before|
    modifies l, names`cells, spaces`cells
    ensures Good(l, names, spaces, base, if status == Ok then before + [node] else before)
    ensures |names.cells| == |old(names.cells)|
    ensures if |before| == |names.cells| then status == Error else status == Ok || (status == BadAlloc && fails != {})
  {
    if index >= |names.cells| { return Error; }
    var copies := CopyNode(l, node, fails);
    if copies.None? { return BadAlloc; }
    var (n, s) := copies.value;
    CellsOwnedStore(names.cells, index, n);
    CellsOwnedStore(spaces.cells, index, s);
    CellsApartStore(names.cells, index, n);
    CellsApartStore(spaces.cells, index, s);
    HoldsStore(names.cells, NamesOf(before), n);
    HoldsStore(spaces.cells, NamespacesOf(before), s);
    assert NamesOf(before + [node]) == NamesOf(before) + [n.text];
    assert NamespacesOf(before + [node]) == NamespacesOf(before) + [s.text];
    names.cells := names.cells[index := Some(n)];
    spaces.cells := spaces.cells[index := Some(s)];
    status := Ok;
  }

  method FillNodes(l: Ledger, names: StringArray, spaces: StringArray, nodes: seq<Node>, fails: set<nat>,
                   ghost base: set<Resource>) returns (index: nat, status: Ret, ghost done: seq<Node>)
    requires Good(l, names, spaces, base, [])
    modifies l, names`cells, spaces`cells
    ensures Good(l, names, spaces, base, done) && |names.cells| == |old(names.cells)|
    ensures status == Ok ==> done == nodes && index == |nodes| <= |names.cells|
    ensures status != Ok ==> fails != {} || (status == Error && |nodes| > |names.cells|)
  {
    index, status, done := 0, Ok, [];
    for i := 0 to |nodes|
      invariant Good(l, names, spaces, base, done) && |names.cells| == |old(names.cells)|
      invariant status == Ok ==> index == i && done == nodes[..i]
      invariant status != Ok ==> fails != {} || (status == Error && |nodes| > |names.cells|)
    {
      if status == Ok {
        status := VisitNode(l, names, spaces, index, nodes[i], fails, done, base);
        if status == Ok {
          done := done + [nodes[i]];
          index := index + 1;
          assert nodes[..i + 1] == nodes[..i] + [nodes[i]];
        }
      }
    }
    assert nodes[..|nodes|] == nodes;
  }

  method InitBoth(l: Ledger, names: StringArray, spaces: StringArray, size: nat, fails: set<nat>) returns (done: bool)
    requires l.Valid() && names != spaces && names.Blank() && spaces.Blank()
    modifies l, names, spaces
    ensures done ==> Good(l, names, spaces, old(l.live), []) && |names.cells| == size
    ensures !done ==> l.Valid() && l.live == old(l.live) && names.Blank() && spaces.Blank() && fails != {}
  {
    done := names.Init(l, size, l.next !in fails);
    if !done { return; }
    done := spaces.Init(l, size, l.next !in fails);
    if !done { names.Fini(l); }
  }

  method FiniBoth(l: Ledger, names: StringArray, spaces: StringArray, ghost base: set<Resource>, ghost done: seq<Node>)
    requires Good(l, names, spaces, base, done)
    modifies l, names, spaces
    ensures l.Valid() && l.live == base && names.Blank() && spaces.Blank()
  {
    names.Fini(l);
    spaces.Fini(l);
  }

  /** `rmw_get_node_names`. On success the arrays hold the nodes of one whole graph; on every
      failure they are blank and nothing of them is left alive. */
  method GetNodeNames(l: Ledger, names: StringArray, spaces: StringArray, attempts: seq<Attempt<Node>>, fails: set<nat>)
    returns (ret: Ret)
    requires l.Valid() && names != spaces && names.Blank() && spaces.Blank() && |attempts| == MAX_ATTEMPTS
    modifies l, names, spaces
    ensures ret == Ok ==> Listed(attempts).Got? && Good(l, names, spaces, old(l.live), Listed(attempts).entries)
                          && |names.cells| == |Listed(attempts).entries|
    ensures ret != Ok ==> l.Valid() && l.live == old(l.live) && names.Blank() && spaces.Blank()
    ensures fails == {} ==> ret == if Listed(attempts).Got? then Ok else Listed(attempts).ret
  {
    ghost var base := l.live;
    assert attempts[0..] == attempts;
    for k := 0 to MAX_ATTEMPTS
      invariant l.Valid() && l.live == base && names.Blank() && spaces.Blank()
      invariant Listed(attempts) == Listed(attempts[k..])
    {
      ListedStep(attempts, k);
      var a := attempts[k];
      if a.count.Broken? { return a.count.error.Mapped(); }
      var count := |a.count.entries|;
      var done := InitBoth(l, names, spaces, count, fails);
      if !done { return BadAlloc; }
      if count == 0 { return Ok; }
      var index, status;
      ghost var filled;
      var visited := if a.fill.Broken? then a.fill.visited else a.fill.entries;
      index, status, filled := FillNodes(l, names, spaces, visited, fails, base);
      if a.fill.Broken? {
        FiniBoth(l, names, spaces, base, filled);
        return a.fill.error.Mapped();
      }
      if status != Ok {
        FiniBoth(l, names, spaces, base, filled);
        return status;
      }
      if a.count.version == a.fill.version && index == count { return Ok; }
      FiniBoth(l, names, spaces, base, filled);
    }
    assert attempts[MAX_ATTEMPTS..] == [];
    return Error;
  }
}
