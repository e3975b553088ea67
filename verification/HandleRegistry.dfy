/** Reference-counted condition handles given out to C. A registry under a lock counts
    the handles per address; acquiring and releasing a handle each take two separate
    steps, so calls of different threads interleave between them. The guard and the
    status registry are the same code twice; one model covers both. */
module HandleRegistry {
  import opened Common

  type Address = nat

  /** Rust aborts the process before a strong count exceeds `isize::MAX`. */
  const MAX_REFCOUNT: nat := INT64_MAX
  const USIZE_MAX: nat := UINT64_MAX

  function SaturatingInc(n: nat): nat { if n >= USIZE_MAX then USIZE_MAX else n + 1 }

  // ------------------------------------------------- the map under the lock

  /** `add_handle` on the entry of one address: the entry after the call, and whether the
      Arc passed in moved into it instead of being dropped. */
  function AddHandle(entry: Option<nat>): (Option<nat>, bool) {
    match entry
    case Some(handles) => (Some(SaturatingInc(handles)), false)
    case None => (Some(SaturatingInc(0)), true)
  }

  datatype Released = Refused | Kept | Removed

  /** `release` on the entry of one address: whether it counts, and whether it removed the
      entry, dropping the Arc the entry held. */
  function ReleaseHandle(entry: Option<nat>): (Option<nat>, Released) {
    match entry
    case None => (None, Refused)
    case Some(handles) =>
      if handles == 0 then (entry, Refused)
      else if handles == 1 then (None, Removed)
      else (Some(handles - 1), Kept)
  }

  class Registry {
    var entries: map<Address, nat>

    constructor ()
      ensures entries == map[]
    {
      entries := map[];
    }

    function Entry(raw: Address): Option<nat>
      reads this
    {
      if raw in entries then Some(entries[raw]) else None
    }

    /** Null, address 0, is never registered. */
    method Add(raw: Address) returns (moved: bool)
      modifies this
      ensures raw == 0 ==> entries == old(entries) && !moved
      ensures raw != 0 ==> (Entry(raw), moved) == AddHandle(old(Entry(raw)))
      ensures forall b :: b != raw ==> Entry(b) == old(Entry(b))
    {
      moved := false;
      if raw == 0 {
        return;
      }
      if raw !in entries {
        entries := entries[raw := 0];
        moved := true;
      }
      entries := entries[raw := SaturatingInc(entries[raw])];
    }

    method Clone(raw: Address) returns (found: bool)
      ensures found <==> raw != 0 && Entry(raw).Some?
    {
      if raw == 0 {
        return false;
      }
      return raw in entries;
    }

    method Release(raw: Address) returns (released: Released)
      modifies this
      ensures raw == 0 ==> entries == old(entries) && released == Refused
      ensures raw != 0 ==> (Entry(raw), released) == ReleaseHandle(old(Entry(raw)))
      ensures forall b :: b != raw ==> Entry(b) == old(Entry(b))
    {
      if raw == 0 || raw !in entries || entries[raw] == 0 {
        return Refused;
      }
      entries := entries[raw := entries[raw] - 1];
      if entries[raw] == 0 {
        entries := entries - {raw};
        return Removed;
      }
      return Kept;
    }
  }

  // ------------------------------------------------------- interleaved calls

  /** All that concerns one address. `temps`, `registering` and `dropping` count the calls
      that stand between two steps: holding a cloned Arc; about to register a raw handle,
      with the Arc for the registry still in hand; about to drop a raw handle. `issued`
      and `returned` count registered handles and the releases that counted. `fault`
      records a count taken below zero or a freed condition touched. */
  datatype Cell = Cell(
    everUsed: bool, strong: nat, owners: nat, entry: Option<nat>,
    temps: nat, registering: nat, dropping: nat,
    issued: nat, returned: nat, fault: bool)

  const UNUSED := Cell(false, 0, 0, None, 0, 0, 0, 0, 0, false)

  datatype Event =
    | NewOwned(a: Address)     // a participant or reader creates its condition
    | CloneOwned(a: Address)   // an owner hands out another owning reference
    | DropOwned(a: Address)    // an owner goes away
    | New(a: Address)          // `hdds_guard_condition_create` allocates a condition
    | Acquire(a: Address)      // an owner's condition is cloned to be handed to C
    | IntoRaw(a: Address)      // the clone of a held Arc becomes a raw handle
    | Register(a: Address)     // the locked part of `add_handle`
    | Release(a: Address)      // the locked part of `release`, for any address at all
    | DropRaw(a: Address)      // `Arc::from_raw` and its drop
    | Clone(a: Address)        // the locked part of `clone`, for any address at all
    | DropTemp(a: Address)     // a held Arc goes out of scope

  /** Addresses are not reused, and no count may pass the limit at which Rust aborts. */
  predicate Possible(c: Cell, e: Event) {
    match e
    case NewOwned(a) => a != 0 && !c.everUsed
    case New(a) => a != 0 && !c.everUsed
    case CloneOwned(_) => c.owners > 0 && c.strong < MAX_REFCOUNT
    case DropOwned(_) => c.owners > 0
    case Acquire(_) => c.owners > 0 && c.strong < MAX_REFCOUNT
    case IntoRaw(_) => c.temps > 0 && c.strong < MAX_REFCOUNT
    case Register(_) => c.registering > 0
    case Release(_) => true
    case DropRaw(_) => c.dropping > 0
    case Clone(_) => c.strong < MAX_REFCOUNT
    case DropTemp(_) => c.temps > 0
  }

  /** Changing the strong count of a freed condition is a fault. */
  function Inc(c: Cell): Cell {
    if c.strong > 0 then c.(strong := c.strong + 1) else c.(fault := true)
  }

  function Dec(c: Cell): Cell {
    if c.strong > 0 then c.(strong := c.strong - 1) else c.(fault := true)
  }

  /** The effect of one step, or None where it is not possible. */
  function Step(c: Cell, e: Event): Option<Cell> {
    if Possible(c, e) then Some(Effect(c, e)) else None
  }

  function Effect(c: Cell, e: Event): Cell
    requires Possible(c, e)
  {
    match e
    case NewOwned(_) => c.(everUsed := true, strong := 1, owners := 1)
    case New(_) => c.(everUsed := true, strong := 1, temps := 1)
    case CloneOwned(_) => Inc(c).(owners := c.owners + 1)
    case DropOwned(_) => Dec(c).(owners := c.owners - 1)
    case Acquire(_) => Inc(c).(temps := c.temps + 1)
    case IntoRaw(_) => Inc(c).(temps := c.temps - 1, registering := c.registering + 1)
    case Register(_) =>
      var (entry, moved) := AddHandle(c.entry);
      (if moved then c else Dec(c)).(
        entry := entry, registering := c.registering - 1, issued := c.issued + 1)
    case Release(_) =>
      var (entry, released) := ReleaseHandle(c.entry);
      if released.Refused? then c else
        (if released.Removed? then Dec(c) else c).(
          entry := entry, dropping := c.dropping + 1, returned := c.returned + 1)
    case DropRaw(_) => Dec(c).(dropping := c.dropping - 1)
    case Clone(_) => if c.entry.Some? then Inc(c).(temps := c.temps + 1) else c
    case DropTemp(_) => Dec(c).(temps := c.temps - 1)
  }

  type State = map<Address, Cell>

  function At(st: State, a: Address): Cell { if a in st then st[a] else UNUSED }

  /** Every step touches one address only. */
  function Next(st: State, e: Event): Option<State> {
    match Step(At(st, e.a), e)
    case Some(c) => Some(st[e.a := c])
    case None => None
  }

  /** The state a run ends in, or None when some event was not possible. */
  function Run(events: seq<Event>): Option<State> {
    if events == [] then Some(map[]) else
      match Run(events[..|events| - 1])
      case None => None
      case Some(st) => Next(st, events[|events| - 1])
  }

  // ---------------------------------------------------------- the accounts

  function Handles(c: Cell): nat { if c.entry.Some? then c.entry.value else 0 }

  /** Raw handles not yet dropped: registered ones, and those of calls under way. */
  function RawHandles(c: Cell): nat { Handles(c) + c.registering + c.dropping }

  /** Arcs held by calls under way. */
  function Temporaries(c: Cell): nat { c.temps + c.registering }

  function References(c: Cell): nat {
    c.owners + Temporaries(c) + RawHandles(c) + if c.entry.Some? then 1 else 0
  }

  /** What holds of every address in every state. */
  predicate Accounted(c: Cell) {
    && !c.fault
    && c.strong == References(c) <= MAX_REFCOUNT
    && (!c.everUsed ==> c.strong == 0)
    && (c.entry.Some? ==> c.entry.value > 0)
    && c.issued == Handles(c) + c.returned
  }

  /** Each step keeps the accounts of its address. In particular the handle counter never
      saturates, because every counted handle is a strong reference. */
  lemma StepAccounts(c: Cell, e: Event)
    requires Accounted(c) && Step(c, e).Some?
    ensures Accounted(Step(c, e).value)
  {
    assert SaturatingInc(Handles(c)) == Handles(c) + 1;
  }

  ghost predicate Inv(st: State) { forall a :: a in st ==> Accounted(st[a]) }

  lemma InvAt(st: State, a: Address)
    requires Inv(st)
    ensures Accounted(At(st, a))
  {
  }

  lemma PutKeepsInv(st: State, a: Address, c: Cell)
    requires Inv(st) && Accounted(c)
    ensures Inv(st[a := c])
  {
  }

  lemma NextKeepsInv(st: State, e: Event)
    requires Inv(st) && Next(st, e).Some?
    ensures Inv(Next(st, e).value)
  {
    StepAtAccounts(st, e);
    PutKeepsInv(st, e.a, Step(At(st, e.a), e).value);
  }

  lemma StepAtAccounts(st: State, e: Event)
    requires Inv(st) && Step(At(st, e.a), e).Some?
    ensures Accounted(Step(At(st, e.a), e).value)
  {
    InvAt(st, e.a);
    StepAccounts(At(st, e.a), e);
  }

  lemma {:induction false} RunKeepsInv(events: seq<Event>)
    requires Run(events).Some?
    ensures Inv(Run(events).value)
  {
    if events != [] {
      RunKeepsInv(events[..|events| - 1]);
      NextKeepsInv(Run(events[..|events| - 1]).value, events[|events| - 1]);
    }
  }

  // -------------------------------------------------------------- theorems

  /** In every interleaving, surplus releases included: no count underflows and nothing
      freed is touched; an address has an entry exactly while handles of it are out; and
      the strong count is the sum of all references there are. */
  lemma CountsAreExact(events: seq<Event>, a: Address)
    requires Run(events).Some?
    ensures var c := At(Run(events).value, a);
            && !c.fault
            && (c.entry.Some? <==> c.issued > c.returned)
            && (c.entry.Some? ==> c.entry.value == c.issued - c.returned)
            && c.strong == c.owners + Temporaries(c) + RawHandles(c) + if c.entry.Some? then 1 else 0
  {
    RunKeepsInv(events);
    InvAt(Run(events).value, a);
  }

  /** A condition is freed exactly when no owner, no call under way, no handle and no
      entry refers to it any more: never earlier and never later. */
  lemma FreedIffUnreferenced(events: seq<Event>, a: Address)
    requires Run(events).Some?
    ensures var c := At(Run(events).value, a);
            c.strong == 0 <==>
            c.owners == 0 && c.temps == 0 && c.registering == 0 && c.dropping == 0 && c.issued == c.returned
  {
    RunKeepsInv(events);
    InvAt(Run(events).value, a);
  }

  /** Cloning through the registry yields a live condition or nothing. */
  lemma CloneIsLive(events: seq<Event>, a: Address)
    requires Run(events).Some? && Step(At(Run(events).value, a), Clone(a)).Some?
    ensures var c := At(Run(events).value, a);
            var c' := Step(c, Clone(a)).value;
            if c.issued > c.returned
            then c.strong > 0 && c' == c.(strong := c.strong + 1, temps := c.temps + 1)
            else c' == c
  {
    RunKeepsInv(events);
    InvAt(Run(events).value, a);
    CloneCell(At(Run(events).value, a), a);
  }

  lemma CloneCell(c: Cell, a: Address)
    requires Accounted(c) && Step(c, Clone(a)).Some?
    ensures var c' := Step(c, Clone(a)).value;
            if c.issued > c.returned
            then c.strong > 0 && c' == c.(strong := c.strong + 1, temps := c.temps + 1)
            else c' == c
  {
  }

  /** A release that finds no handle out, whether surplus, early or of a foreign address,
      changes nothing at all. */
  lemma SurplusReleaseIsHarmless(events: seq<Event>, a: Address)
    requires Run(events).Some? && At(Run(events).value, a).issued == At(Run(events).value, a).returned
    ensures Step(At(Run(events).value, a), Release(a)) == Some(At(Run(events).value, a))
  {
    RunKeepsInv(events);
    InvAt(Run(events).value, a);
    SurplusCell(At(Run(events).value, a), a);
  }

  lemma SurplusCell(c: Cell, a: Address)
    requires Accounted(c) && c.issued == c.returned
    ensures Step(c, Release(a)) == Some(c)
  {
  }
}
