/** `rmw_wait` as a whole: attaching guard conditions, the shared-memory shortcut, the wait,
    reporting, and what every way out gives back. */
module WaitSet {
  import opened Common
  import opened Resources
  import opened WaitReady

  /** A guard condition handed in by the caller; some have no native handle. */
  datatype Guard = Guard(native: Option<nat>)

  function NativeOf(g: Option<Guard>): Option<nat> {
    match g case None => None case Some(x) => x.native
  }

  /** The wait itself: an error, or the readers that are ready and whether the graph moved. */
  datatype Waited = WaitFailed(error: Failure) | WaitedFor(ready: seq<Reader>, graphChanged: bool)

  /** How many ready readers the wrapper around the native wait can carry. */
  const MAX_READERS := 256

  /** `rmw_hdds_context_wait_readers`: it needs an output array, and room in it and in the
      wrapper's own. */
  function WaitReaders(room: nat, w: Waited): Waited {
    if room == 0 then WaitFailed(NativeInvalidArgument)
    else if w.WaitedFor? && (|w.ready| > MAX_READERS || |w.ready| > room) then WaitFailed(NativeOther)
    else w
  }

  /** The answers of allocator and native calls, and what the wait finds. */
  datatype Oracle = Oracle(
    keys: bool, attachFails: set<nat>, attachError: Failure,
    subArray: bool, serviceArray: bool, clientArray: bool, readyArray: bool,
    shmBitmap: bool, waited: Waited,
    subBitmap: bool, serviceBitmap: bool, clientBitmap: bool, graphReset: bool)

  class Context {
    var attached: set<nat>     // guard conditions attached to the context
    var triggers: set<nat>     // guard conditions whose trigger is set
    var graphGuard: bool
    var shm: set<string>       // topics with data waiting in shared memory
  }

  // ---------------------------------------------------------- specification

  /** The caller's arrays. */
  datatype View = View(subs: Slots, services: Slots, clients: Slots, guards: seq<Option<Guard>>)

  predicate ShmReady(slot: Option<Entity>, shm: set<string>) {
    slot.Some? && slot.value.shm.Some? && slot.value.shm.value in shm
  }

  function ShmBits(slots: Slots, shm: set<string>): (b: seq<bool>)
    ensures |b| == |slots|
  {
    seq(|slots|, i requires 0 <= i < |slots| => ShmReady(slots[i], shm))
  }

  function Nothing<T>(n: nat): seq<Option<T>> { seq(n, _ => None) }

  function KeepGuards(guards: seq<Option<Guard>>, triggers: set<nat>): (r: seq<Option<Guard>>)
    ensures |r| == |guards|
  {
    seq(|guards|, i requires 0 <= i < |guards| =>
      if NativeOf(guards[i]).Some? && NativeOf(guards[i]).value in triggers then guards[i] else None)
  }

  datatype Result = Result(ret: Ret, view: View, graphReset: bool)

  function ShmResult(v: View, shm: set<string>): Result {
    Result(Ok, View(Keep(v.subs, ShmBits(v.subs, shm)), Nothing(|v.services|), Nothing(|v.clients|),
                    Nothing(|v.guards|)), false)
  }

  function ReadyResult(v: View, ready: seq<Reader>, triggers: set<nat>, graphReset: bool): Result {
    Result(Ok, View(Keep(v.subs, Bitmap(Readers(v.subs), ready)),
                    Keep(v.services, Bitmap(Readers(v.services), ready)),
                    Keep(v.clients, Bitmap(Readers(v.clients), ready)),
                    KeepGuards(v.guards, triggers)), graphReset)
  }

  predicate BitmapsOk(v: View, o: Oracle) {
    (v.subs != [] ==> o.subBitmap) && (v.services != [] ==> o.serviceBitmap) && (v.clients != [] ==> o.clientBitmap)
  }

  /** What a wait that had to block reports. */
  function Blocked(v: View, triggers: set<nat>, o: Oracle): Result {
    match WaitReaders(Room(v), o.waited)
    case WaitFailed(error) => Result(error.Mapped(), v, false)
    case WaitedFor(ready, graphChanged) =>
      if !BitmapsOk(v, o) then Result(BadAlloc, v, false)
      else ReadyResult(v, ready, triggers, graphChanged && o.graphReset)
  }

  /** Shared memory has data for a subscription, and the wait could find out. */
  predicate ShmFound(v: View, shm: set<string>, o: Oracle) {
    v.subs != [] && o.shmBitmap && true in ShmBits(v.subs, shm)
  }

  /** What a wait reports once its arrays are allocated. */
  function Expected(v: View, triggers: set<nat>, shm: set<string>, o: Oracle): Result {
    if ShmFound(v, shm, o) then ShmResult(v, shm) else Blocked(v, triggers, o)
  }

  predicate ScratchOk(v: View, o: Oracle) {
    && (v.subs != [] ==> o.subArray) && (v.services != [] ==> o.serviceArray) && (v.clients != [] ==> o.clientArray)
    && (Room(v) > 0 ==> o.readyArray)
  }

  function Room(v: View): nat { |v.subs| + |v.services| + |v.clients| }

  function Failing(ret: Ret, v: View): Result { Result(ret, v, false) }

  function Served(v: View, triggers: set<nat>, shm: set<string>, o: Oracle): Result {
    if ScratchOk(v, o) then Expected(v, triggers, shm, o) else Failing(BadAlloc, v)
  }

  /** What a call of `rmw_wait` reports, from the attached guards on. */
  function WaitResult(v: View, attached: set<nat>, triggers: set<nat>, shm: set<string>, mode: Mode, o: Oracle): Result
  {
    if mode == Uninitialized then Failing(Ok, v)
    else if v.guards != [] && !o.keys then Failing(BadAlloc, v)
    else if v.guards != [] && Attached(attached, v.guards, o.attachFails).None? then Failing(o.attachError.Mapped(), v)
    else if mode == NullArray then Failing(InvalidArgument, v)
    else Served(v, triggers, shm, o)
  }

  /** The wait set has lost its context; or some count is positive and its array is NULL. */
  datatype Mode = Normal | Uninitialized | NullArray

  // ------------------------------------------------------- guard attachment

  /** The guards attached after the loop over `guards`, or None when one attachment fails:
      the native call refuses a guard that is already attached. */
  function Attached(from: set<nat>, guards: seq<Option<Guard>>, fails: set<nat>): Option<set<nat>> {
    if guards == [] then Some(from) else
      var last := |guards| - 1;
      match Attached(from, guards[..last], fails)
      case None => None
      case Some(s) =>
        match NativeOf(guards[last])
        case None => Some(s)
        case Some(g) => if g in s || last in fails then None else Some(s + {g})
  }

  lemma {:induction false} AttachedStops(from: set<nat>, guards: seq<Option<Guard>>, fails: set<nat>, i: nat)
    requires i <= |guards| && Attached(from, guards[..i], fails).None?
    ensures Attached(from, guards, fails).None?
    decreases |guards|
  {
    if i < |guards| {
      assert guards[..|guards| - 1][..i] == guards[..i];
      AttachedStops(from, guards[..|guards| - 1], fails, i);
    } else {
      assert guards[..i] == guards;
    }
  }

  /** `detach_context_guards`: exactly the keys collected, once each. */
  method Detach(ctx: Context, keys: seq<nat>)
    modifies ctx`attached
    ensures ctx.attached == old(ctx.attached) - (set k | k in keys)
  {
    for i := 0 to |keys|
      invariant ctx.attached == old(ctx.attached) - (set k | k in keys[..i])
    {
      ctx.attached := ctx.attached - {keys[i]};
      assert keys[..i + 1] == keys[..i] + [keys[i]];
    }
    assert keys[..|keys|] == keys;
  }

  /** On failure every attachment made so far and the key array are given back. */
  method Attach(ctx: Context, l: Ledger, guards: seq<Option<Guard>>, o: Oracle)
    returns (ret: Ret, memory: Option<Resource>, keys: seq<nat>)
    requires l.Valid()
    modifies l, ctx`attached
    ensures l.Valid() && (forall k :: k in keys ==> k !in old(ctx.attached))
    ensures ret == if !o.keys then BadAlloc
                   else if Attached(old(ctx.attached), guards, o.attachFails).None? then o.attachError.Mapped()
                   else Ok
    ensures ret != Ok ==> l.live == old(l.live) && ctx.attached == old(ctx.attached)
    ensures ret == Ok ==> memory == Some(Resource(Memory, old(l.next))) && l.live == old(l.live) + Held(memory)
    ensures ret == Ok ==> ctx.attached == old(ctx.attached) + (set k | k in keys)
    ensures ret == Ok ==> Attached(old(ctx.attached), guards, o.attachFails) == Some(ctx.attached)
  {
    keys := [];
    memory := l.Acquire(Memory, o.keys);
    if memory.None? { return BadAlloc, None, []; }
    ghost var from := ctx.attached;
    for i := 0 to |guards|
      invariant l.Valid() && l.live == old(l.live) + Held(memory)
      invariant forall k :: k in keys ==> k !in from
      invariant ctx.attached == from + (set k | k in keys)
      invariant Attached(from, guards[..i], o.attachFails) == Some(ctx.attached)
    {
      assert guards[..i + 1][..i] == guards[..i];
      var native := NativeOf(guards[i]);
      if native.None? { continue; }
      if native.value in ctx.attached || i in o.attachFails {
        AttachedStops(from, guards, o.attachFails, i + 1);
        Detach(ctx, keys);
        l.Release(memory);
        return o.attachError.Mapped(), None, [];
      }
      ctx.attached := ctx.attached + {native.value};
      keys := keys + [native.value];
    }
    assert guards[..|guards|] == guards;
    ret := Ok;
  }

  // ---------------------------------------------------------- scratch arrays

  datatype Scratch = Scratch(
    subs: Option<Resource>, services: Option<Resource>, clients: Option<Resource>, ready: Option<Resource>)
  {
    function Owned(): set<Resource> { Held(subs) + Held(services) + Held(clients) + Held(ready) }

    ghost predicate Distinct() { Held(subs) !! Held(services) !! Held(clients) !! Held(ready) }
  }

  method FreeScratch(l: Ledger, s: Scratch)
    requires l.Valid() && s.Distinct() && s.Owned() <= l.live
    modifies l
    ensures l.Valid() && l.live == old(l.live) - s.Owned()
  {
    l.Release(s.ready);
    l.Release(s.clients);
    l.Release(s.services);
    l.Release(s.subs);
  }

  /** The reader arrays, each only when it has an element; all of them or none. */
  method AllocateScratch(l: Ledger, subs: nat, services: nat, clients: nat, o: Oracle)
    returns (ok: bool, s: Scratch)
    requires l.Valid()
    modifies l
    ensures l.Valid()
    ensures ok <==> (subs > 0 ==> o.subArray) && (services > 0 ==> o.serviceArray) && (clients > 0 ==> o.clientArray)
                    && (subs + services + clients > 0 ==> o.readyArray)
    ensures !ok ==> l.live == old(l.live)
    ensures ok ==> s.Distinct() && s.Owned() !! old(l.live) && l.live == old(l.live) + s.Owned()
  {
    ok, s := true, Scratch(None, None, None, None);
    if subs > 0 {
      var a := l.Acquire(Memory, o.subArray);
      ok, s := a.Some?, s.(subs := a);
    }
    if ok && services > 0 {
      var a := l.Acquire(Memory, o.serviceArray);
      ok, s := a.Some?, s.(services := a);
    }
    if ok && clients > 0 {
      var a := l.Acquire(Memory, o.clientArray);
      ok, s := a.Some?, s.(clients := a);
    }
    if ok && subs + services + clients > 0 {
      var a := l.Acquire(Memory, o.readyArray);
      ok, s := a.Some?, s.(ready := a);
    }
    if !ok { FreeScratch(l, s); }
  }

  /** The three trigger bitmaps: all of them or none. */
  method AllocateBitmaps(l: Ledger, subs: bool, services: bool, clients: bool, o: Oracle)
    returns (ok: bool, b: Scratch)
    requires l.Valid()
    modifies l
    ensures l.Valid()
    ensures ok <==> (subs ==> o.subBitmap) && (services ==> o.serviceBitmap) && (clients ==> o.clientBitmap)
    ensures !ok ==> l.live == old(l.live)
    ensures ok ==> b.Distinct() && b.Owned() !! old(l.live) && l.live == old(l.live) + b.Owned()
  {
    b := Scratch(None, None, None, None);
    if subs { var a := l.Acquire(Memory, o.subBitmap); b := b.(subs := a); }
    if services { var a := l.Acquire(Memory, o.serviceBitmap); b := b.(services := a); }
    if clients { var a := l.Acquire(Memory, o.clientBitmap); b := b.(clients := a); }
    ok := !(subs && b.subs.None?) && !(services && b.services.None?) && !(clients && b.clients.None?);
    if !ok { FreeScratch(l, b); }
  }

  // -------------------------------------------------------------- reporting

  /** The caller's arrays, in place; a count of zero may come without an array. */
  class Arrays {
    var subs: array<Option<Entity>>
    var services: array<Option<Entity>>
    var clients: array<Option<Entity>>
    var guards: array<Option<Guard>>

    ghost predicate Valid() reads this { subs != services && subs != clients && services != clients }

    ghost function Contents(): View
      reads this, subs, services, clients, guards
    {
      View(subs[..], services[..], clients[..], guards[..])
    }
  }

  method FilterGuards(guards: array<Option<Guard>>, triggers: set<nat>)
    modifies guards
    ensures guards[..] == KeepGuards(old(guards[..]), triggers)
  {
    for i := 0 to guards.Length
      invariant forall k :: 0 <= k < i ==> guards[k] == KeepGuards(old(guards[..]), triggers)[k]
      invariant forall k :: i <= k < guards.Length ==> guards[k] == old(guards[k])
    {
      var native := NativeOf(guards[i]);
      if native.None? || native.value !in triggers { guards[i] := None; }
    }
  }

  method Clear<T>(a: array<Option<T>>)
    modifies a
    ensures a[..] == Nothing(a.Length)
  {
    for i := 0 to a.Length
      invariant forall k :: 0 <= k < i ==> a[k] == None
    {
      a[i] := None;
    }
  }

  /** The shared-memory check, when its bitmap can be allocated. */
  method CheckShm(l: Ledger, slots: Slots, shm: set<string>, o: Oracle) returns (found: bool, bits: seq<bool>)
    requires l.Valid()
    modifies l
    ensures l.Valid() && l.live == old(l.live)
    ensures found <==> slots != [] && o.shmBitmap && true in ShmBits(slots, shm)
    ensures found ==> bits == ShmBits(slots, shm)
  {
    found, bits := false, [];
    if slots == [] { return; }
    var bitmap := l.Acquire(Memory, o.shmBitmap);
    if bitmap.None? { return; }
    for i := 0 to |slots|
      invariant bits == ShmBits(slots, shm)[..i] && (found <==> true in bits)
    {
      bits := bits + [ShmReady(slots[i], shm)];
      found := found || ShmReady(slots[i], shm);
    }
    l.Release(bitmap);
  }

  method ReportShm(a: Arrays, shm: set<string>, bits: seq<bool>)
    requires a.Valid() && bits == ShmBits(a.subs[..], shm)
    modifies a.subs, a.services, a.clients, a.guards
    ensures a.Contents() == ShmResult(old(a.Contents()), shm).view
  {
    NullOut(a.subs, bits);
    Clear(a.services);
    Clear(a.clients);
    Clear(a.guards);
  }

  /** The slots that a wait calls back, array by array. */
  datatype Calls = Calls(subs: seq<nat>, services: seq<nat>, clients: seq<nat>)

  const NO_CALLS := Calls([], [], [])

  /** Each reported slot that has a callback is called back once, in order. */
  ghost predicate CalledBack(calls: seq<nat>, slots: Slots, ready: seq<Reader>) {
    && Increasing(calls)
    && forall i: nat :: i in calls <==> ReadyAt(Readers(slots), ready, i) && slots[i].Some? && slots[i].value.callback
  }

  ghost predicate AllCalledBack(calls: Calls, v: View, ready: seq<Reader>) {
    && CalledBack(calls.subs, v.subs, ready)
    && CalledBack(calls.services, v.services, ready)
    && CalledBack(calls.clients, v.clients, ready)
  }

  method Notify(slots: Slots, ready: seq<Reader>, bits: seq<bool>) returns (calls: seq<nat>)
    requires bits == Bitmap(Readers(slots), ready)
    ensures CalledBack(calls, slots, ready)
  {
    calls := CallBack(slots, bits);
  }

  method ReportReady(a: Arrays, ready: seq<Reader>, triggers: set<nat>) returns (calls: Calls)
    requires a.Valid()
    modifies a.subs, a.services, a.clients, a.guards
    ensures a.Contents() == ReadyResult(old(a.Contents()), ready, triggers, false).view
    ensures AllCalledBack(calls, old(a.Contents()), ready)
  {
    calls := NO_CALLS;
    var s, v, c, readyLen := Match(Readers(a.subs[..]), Readers(a.services[..]), Readers(a.clients[..]), ready);
    if ready != [] {
      var subs := Notify(a.subs[..], ready, s[..]);
      var services := Notify(a.services[..], ready, v[..]);
      var clients := Notify(a.clients[..], ready, c[..]);
      calls := Calls(subs, services, clients);
    }
    NullOut(a.subs, s[..]);
    NullOut(a.services, v[..]);
    NullOut(a.clients, c[..]);
    FilterGuards(a.guards, triggers);
  }

  /** What a wait did is what `r` says: status, arrays and graph guard. */
  twostate predicate Did(ret: Ret, a: Arrays, ctx: Context, r: Result)
    reads a, a.subs, a.services, a.clients, a.guards, ctx
  {
    ret == r.ret && a.Contents() == r.view && ctx.graphGuard == (old(ctx.graphGuard) && !r.graphReset)
  }

  /** Report what is ready, with bitmaps that are freed again. */
  method Deliver(l: Ledger, a: Arrays, ready: seq<Reader>, triggers: set<nat>, o: Oracle)
    returns (ok: bool, calls: Calls)
    requires l.Valid() && a.Valid()
    modifies l, a.subs, a.services, a.clients, a.guards
    ensures l.Valid() && l.live == old(l.live) && ok == BitmapsOk(old(a.Contents()), o)
    ensures !ok ==> a.Contents() == old(a.Contents()) && calls == NO_CALLS
    ensures ok ==> a.Contents() == ReadyResult(old(a.Contents()), ready, triggers, false).view
                   && AllCalledBack(calls, old(a.Contents()), ready)
  {
    var b;
    ok, b := AllocateBitmaps(l, a.subs.Length > 0, a.services.Length > 0, a.clients.Length > 0, o);
    if !ok { return false, NO_CALLS; }
    calls := ReportReady(a, ready, triggers);
    FreeScratch(l, b);
  }

  /** The wait itself. Whatever is reported is called back once, if it has a callback. */
  method Block(ctx: Context, l: Ledger, a: Arrays, o: Oracle) returns (ret: Ret, calls: Calls)
    requires l.Valid() && a.Valid()
    modifies l, ctx`graphGuard, a.subs, a.services, a.clients, a.guards
    ensures l.Valid() && l.live == old(l.live)
    ensures Did(ret, a, ctx, Blocked(old(a.Contents()), ctx.triggers, o))
    ensures if ret == Ok then o.waited.WaitedFor? && AllCalledBack(calls, old(a.Contents()), o.waited.ready)
            else calls == NO_CALLS
  {
    var w := WaitReaders(a.subs.Length + a.services.Length + a.clients.Length, o.waited);
    if w.WaitFailed? { return w.error.Mapped(), NO_CALLS; }
    var ok;
    ok, calls := Deliver(l, a, w.ready, ctx.triggers, o);
    if !ok { return BadAlloc, NO_CALLS; }
    if w.graphChanged && o.graphReset { ctx.graphGuard := false; }
    ret := Ok;
  }

  /** Callbacks fire only for a wait that blocked and succeeded. */
  ghost predicate CallsMatch(calls: Calls, blocked: bool, v: View, o: Oracle) {
    if blocked then o.waited.WaitedFor? && AllCalledBack(calls, v, o.waited.ready) else calls == NO_CALLS
  }

  /** Everything between the allocation of the arrays and the clean-up. */
  method Report(ctx: Context, l: Ledger, a: Arrays, o: Oracle) returns (ret: Ret, calls: Calls)
    requires l.Valid() && a.Valid()
    modifies l, ctx`graphGuard, a.subs, a.services, a.clients, a.guards
    ensures l.Valid() && l.live == old(l.live)
    ensures Did(ret, a, ctx, Expected(old(a.Contents()), ctx.triggers, ctx.shm, o))
    ensures CallsMatch(calls, ret == Ok && !ShmFound(old(a.Contents()), ctx.shm, o), old(a.Contents()), o)
  {
    var found, bits := CheckShm(l, a.subs[..], ctx.shm, o);
    if found {
      ReportShm(a, ctx.shm, bits);
      return Ok, NO_CALLS;
    }
    ret, calls := Block(ctx, l, a, o);
  }

  // ---------------------------------------------------------------- the wait

  /** Allocate the arrays, report, free the arrays. */
  method Serve(ctx: Context, l: Ledger, a: Arrays, o: Oracle) returns (ret: Ret, calls: Calls)
    requires l.Valid() && a.Valid()
    modifies l, ctx`graphGuard, a.subs, a.services, a.clients, a.guards
    ensures l.Valid() && l.live == old(l.live)
    ensures Did(ret, a, ctx, Served(old(a.Contents()), ctx.triggers, ctx.shm, o))
    ensures CallsMatch(calls, ret == Ok && !ShmFound(old(a.Contents()), ctx.shm, o), old(a.Contents()), o)
  {
    var ok, scratch := AllocateScratch(l, a.subs.Length, a.services.Length, a.clients.Length, o);
    if !ok { return BadAlloc, NO_CALLS; }
    ret, calls := Report(ctx, l, a, o);
    FreeScratch(l, scratch);
  }

  /** There are guard conditions, and all of them could be attached. */
  predicate GuardsAttach(attached: set<nat>, guards: seq<Option<Guard>>, o: Oracle) {
    guards != [] && o.keys && Attached(attached, guards, o.attachFails).Some?
  }

  /** `rmw_wait`. Every way out has detached exactly the guards it attached and freed exactly
      what it allocated, except that a missing array leaves the guards attached. */
  method Wait(ctx: Context, l: Ledger, a: Arrays, mode: Mode, o: Oracle) returns (ret: Ret, calls: Calls)
    requires l.Valid() && a.Valid()
    modifies l, ctx`attached, ctx`graphGuard, a.subs, a.services, a.clients, a.guards
    ensures l.Valid()
    ensures Did(ret, a, ctx, WaitResult(old(a.Contents()), old(ctx.attached), ctx.triggers, ctx.shm, mode, o))
    ensures CallsMatch(calls, mode == Normal && ret == Ok && !ShmFound(old(a.Contents()), ctx.shm, o),
                       old(a.Contents()), o)
    ensures ctx.attached == old(ctx.attached) && l.live == old(l.live) <==>
            !(mode == NullArray && GuardsAttach(old(ctx.attached), old(a.guards[..]), o))
    ensures mode == NullArray && GuardsAttach(old(ctx.attached), old(a.guards[..]), o) ==>
              Attached(old(ctx.attached), old(a.guards[..]), o.attachFails) == Some(ctx.attached)
  {
    if mode == Uninitialized { return Ok, NO_CALLS; }
    var memory: Option<Resource>, keys: seq<nat> := None, [];
    if a.guards.Length > 0 {
      ret, memory, keys := Attach(ctx, l, a.guards[..], o);
      if ret != Ok { return ret, NO_CALLS; }
    }
    if mode == NullArray { return InvalidArgument, NO_CALLS; }
    ret, calls := Serve(ctx, l, a, o);
    Detach(ctx, keys);
    l.Release(memory);
  }

  // --------------------------------------------------------- what callers see

  /** A wait that failed has told the caller nothing. */
  lemma FailureChangesNothing(v: View, attached: set<nat>, triggers: set<nat>, shm: set<string>, mode: Mode, o: Oracle)
    ensures var r := WaitResult(v, attached, triggers, shm, mode, o); r.ret != Ok ==> r.view == v && !r.graphReset
  {
  }

  /** The guards can be attached exactly when none is attached before, none comes twice, and
      no native call fails. */
  ghost predicate Attachable(from: set<nat>, guards: seq<Option<Guard>>, fails: set<nat>) {
    && (forall i :: 0 <= i < |guards| && NativeOf(guards[i]).Some? ==>
          NativeOf(guards[i]).value !in from && i !in fails)
    && (forall i, j :: 0 <= i < j < |guards| && NativeOf(guards[i]).Some? ==>
          NativeOf(guards[i]) != NativeOf(guards[j]))
  }

  lemma {:induction false} AttachedIff(from: set<nat>, guards: seq<Option<Guard>>, fails: set<nat>)
    ensures Attached(from, guards, fails).Some? <==> Attachable(from, guards, fails)
    ensures Attached(from, guards, fails).Some? ==>
              forall g: nat :: g in Attached(from, guards, fails).value <==>
                g in from || exists i :: 0 <= i < |guards| && NativeOf(guards[i]) == Some(g)
  {
    if guards != [] {
      var last := |guards| - 1;
      var init := guards[..last];
      AttachedIff(from, init, fails);
      assert forall i :: 0 <= i < last ==> init[i] == guards[i];
      assert Attachable(from, guards, fails) ==> Attachable(from, init, fails);
    }
  }

  /** Everything a wait needs before it looks at shared memory answers well. */
  ghost predicate Ready(v: View, attached: set<nat>, o: Oracle) {
    && (v.guards != [] ==> o.keys && Attachable(attached, v.guards, o.attachFails))
    && (v.subs != [] ==> o.subArray) && (v.services != [] ==> o.serviceArray) && (v.clients != [] ==> o.clientArray)
    && (v.subs != [] || v.services != [] || v.clients != [] ==> o.readyArray)
  }

  /** The blocking path finds readers for which there is room, and room to report them. */
  predicate Waits(v: View, o: Oracle) {
    && o.waited.WaitedFor? && 0 < |v.subs| + |v.services| + |v.clients|
    && |o.waited.ready| <= |v.subs| + |v.services| + |v.clients| && |o.waited.ready| <= MAX_READERS
    && (v.subs != [] ==> o.subBitmap) && (v.services != [] ==> o.serviceBitmap) && (v.clients != [] ==> o.clientBitmap)
  }

  /** A wait succeeds exactly when its guards and arrays can be had, and either shared memory is
      found to have data for it, or it has an entity, the context has no more ready readers than
      the caller has entities and than the wrapper can carry, and these can be reported. */
  lemma SucceedsIff(v: View, attached: set<nat>, triggers: set<nat>, shm: set<string>, o: Oracle)
    ensures WaitResult(v, attached, triggers, shm, Normal, o).ret == Ok <==>
            && Ready(v, attached, o)
            && ((o.shmBitmap && exists i :: 0 <= i < |v.subs| && ShmReady(v.subs[i], shm)) || Waits(v, o))
  {
    AttachedIff(attached, v.guards, o.attachFails);
    ShmFoundIff(v, shm, o);
  }

  /** The new slots are the old ones whose reader is ready and in no lower slot. */
  ghost predicate Survivors(was: Slots, now: Slots, ready: seq<Reader>) {
    && |now| == |was|
    && forall j :: 0 <= j < |was| ==>
         && (now[j].Some? <==>
               was[j].Some? && was[j].value.reader.Some? && was[j].value.reader.value in ready
               && forall k :: 0 <= k < j && was[k].Some? ==> was[k].value.reader != was[j].value.reader)
         && (now[j].Some? ==> now[j] == was[j])
  }

  lemma KeptSurvive(slots: Slots, ready: seq<Reader>)
    ensures Survivors(slots, Keep(slots, Bitmap(Readers(slots), ready)), ready)
  {
    var now := Keep(slots, Bitmap(Readers(slots), ready));
    forall j: nat | j < |slots|
      ensures (now[j].Some? <==>
                 slots[j].Some? && slots[j].value.reader.Some? && slots[j].value.reader.value in ready
                 && forall k :: 0 <= k < j ==> ReaderOf(slots[k]) != slots[j].value.reader)
              && (now[j].Some? ==> now[j] == slots[j])
    {
      SurvivesIffReady(slots, ready, j);
    }
  }

  /** The guard conditions left are those that have a native handle and are triggered. */
  ghost predicate Triggered(was: seq<Option<Guard>>, now: seq<Option<Guard>>, triggers: set<nat>) {
    && |now| == |was|
    && forall i :: 0 <= i < |was| ==>
         && (now[i].Some? <==> was[i].Some? && was[i].value.native.Some? && was[i].value.native.value in triggers)
         && (now[i].Some? ==> now[i] == was[i])
  }

  ghost predicate AllNull<T>(s: seq<Option<T>>, n: nat) { |s| == n && forall i :: 0 <= i < n ==> s[i] == None }

  /** What a successful wait leaves in the caller's four arrays. Without data in shared memory:
      in each entity array exactly the slots whose reader is ready and in no lower slot, exactly
      the triggered guards, and the graph guard is reset exactly when the graph changed and that
      call succeeded. With data there: exactly the subscriptions with data, and nothing else. */
  lemma WhatIsReported(v: View, attached: set<nat>, triggers: set<nat>, shm: set<string>, o: Oracle)
    requires WaitResult(v, attached, triggers, shm, Normal, o).ret == Ok
    ensures var r := WaitResult(v, attached, triggers, shm, Normal, o);
            if o.shmBitmap && exists i :: 0 <= i < |v.subs| && ShmReady(v.subs[i], shm)
            then
              && |r.view.subs| == |v.subs|
              && (forall i :: 0 <= i < |v.subs| ==>
                    r.view.subs[i] == if ShmReady(v.subs[i], shm) then v.subs[i] else None)
              && AllNull(r.view.services, |v.services|) && AllNull(r.view.clients, |v.clients|)
              && AllNull(r.view.guards, |v.guards|) && !r.graphReset
            else
              && o.waited.WaitedFor?
              && Survivors(v.subs, r.view.subs, o.waited.ready)
              && Survivors(v.services, r.view.services, o.waited.ready)
              && Survivors(v.clients, r.view.clients, o.waited.ready)
              && Triggered(v.guards, r.view.guards, triggers)
              && (r.graphReset <==> o.waited.graphChanged && o.graphReset)
  {
    ShmFoundIff(v, shm, o);
    if !ShmFound(v, shm, o) {
      KeptSurvive(v.subs, o.waited.ready);
      KeptSurvive(v.services, o.waited.ready);
      KeptSurvive(v.clients, o.waited.ready);
    }
  }

  /** The status of a wait that does not get to wait, cause by cause in the order they are met. */
  lemma FailsEarlyWith(v: View, attached: set<nat>, triggers: set<nat>, shm: set<string>, mode: Mode, o: Oracle)
    ensures mode == Uninitialized ==> WaitResult(v, attached, triggers, shm, mode, o) == Result(Ok, v, false)
    ensures mode != Uninitialized && v.guards != [] && !o.keys ==>
              WaitResult(v, attached, triggers, shm, mode, o).ret == BadAlloc
    ensures mode != Uninitialized && v.guards != [] && o.keys && !Attachable(attached, v.guards, o.attachFails) ==>
              WaitResult(v, attached, triggers, shm, mode, o).ret == o.attachError.Mapped()
    ensures mode == NullArray && (v.guards != [] ==> o.keys && Attachable(attached, v.guards, o.attachFails)) ==>
              WaitResult(v, attached, triggers, shm, mode, o).ret == InvalidArgument
  {
    AttachedIff(attached, v.guards, o.attachFails);
  }

  /** And of one that does: nothing to wait for, the native error, more ready readers than can
      be carried, and no memory, before or after. */
  lemma FailsLateWith(v: View, attached: set<nat>, triggers: set<nat>, shm: set<string>, o: Oracle)
    requires v.guards != [] ==> o.keys && Attachable(attached, v.guards, o.attachFails)
    requires !(o.shmBitmap && exists i :: 0 <= i < |v.subs| && ShmReady(v.subs[i], shm))
    ensures var ret, n := WaitResult(v, attached, triggers, shm, Normal, o).ret, |v.subs| + |v.services| + |v.clients|;
            && (!Ready(v, attached, o) ==> ret == BadAlloc)
            && (Ready(v, attached, o) && n == 0 ==> ret == InvalidArgument)
            && (Ready(v, attached, o) && n > 0 && o.waited.WaitFailed? ==> ret == o.waited.error.Mapped())
            && (Ready(v, attached, o) && n > 0 && o.waited.WaitedFor? ==>
                  if |o.waited.ready| > n || |o.waited.ready| > MAX_READERS then ret == Error
                  else ret == if Waits(v, o) then Ok else BadAlloc)
  {
    AttachedIff(attached, v.guards, o.attachFails);
    ShmFoundIff(v, shm, o);
  }

  lemma ShmFoundIff(v: View, shm: set<string>, o: Oracle)
    ensures ShmFound(v, shm, o) <==> o.shmBitmap && exists i :: 0 <= i < |v.subs| && ShmReady(v.subs[i], shm)
  {
    var bits := ShmBits(v.subs, shm);
    if true in bits {
      var i :| 0 <= i < |bits| && bits[i];
      assert ShmReady(v.subs[i], shm);
    } else {
      forall i | 0 <= i < |v.subs| ensures !ShmReady(v.subs[i], shm) {
        assert bits[i] == ShmReady(v.subs[i], shm);
      }
    }
  }

  /** A wait on guard conditions alone never succeeds, whatever any call answers: there is no
      output array to pass on. */
  lemma GuardsAloneNeverSucceed(v: View, attached: set<nat>, triggers: set<nat>, shm: set<string>,
                                mode: Mode, o: Oracle)
    requires v.subs == [] && v.services == [] && v.clients == [] && mode != Uninitialized
    ensures WaitResult(v, attached, triggers, shm, mode, o).ret != Ok
  {
  }

  /** What a missing array leaves behind locks its guards: every later wait that names one of
      them fails, whatever else it waits for. */
  lemma LeftGuardsLock(from: set<nat>, guards: seq<Option<Guard>>, fails: set<nat>, g: nat, i: nat,
                       v: View, triggers: set<nat>, shm: set<string>, mode: Mode, o: Oracle)
    requires Attached(from, guards, fails).Some? && i < |guards| && NativeOf(guards[i]) == Some(g)
    requires Some(Guard(Some(g))) in v.guards && mode != Uninitialized
    ensures WaitResult(v, Attached(from, guards, fails).value, triggers, shm, mode, o).ret != Ok
  {
    var left := Attached(from, guards, fails).value;
    AttachedIff(from, guards, fails);
    assert g in left;
    AttachedIff(left, v.guards, o.attachFails);
    var k :| 0 <= k < |v.guards| && v.guards[k] == Some(Guard(Some(g)));
    assert NativeOf(v.guards[k]).value in left;
  }

  // ------------------------------------------------------------- two waits

  /** Put entities back into an array, as a caller does before every wait. */
  method Refill<T>(a: array<T>, contents: seq<T>)
    requires a.Length == |contents|
    modifies a
    ensures a[..] == contents
  {
    for i := 0 to a.Length
      invariant a[..i] == contents[..i]
    {
      a[i] := contents[i];
      assert a[..i + 1] == a[..i] + [contents[i]];
    }
  }

  method RefillAll(a: Arrays, v: View)
    requires a.Valid() && a.subs.Length == |v.subs| && a.services.Length == |v.services|
    requires a.clients.Length == |v.clients| && a.guards.Length == |v.guards|
    modifies a.subs, a.services, a.clients, a.guards
    ensures a.Contents() == v
  {
    Refill(a.subs, v.subs);
    Refill(a.services, v.services);
    Refill(a.clients, v.clients);
    Refill(a.guards, v.guards);
  }

  /** A wait that finds data in shared memory, however it ends, leaves attachments, memory and
      graph guard as they were and calls nobody back; if it succeeds it reports exactly the
      subscriptions with data. */
  method ShmWait(ctx: Context, l: Ledger, a: Arrays, o: Oracle) returns (ret: Ret)
    requires l.Valid() && a.Valid() && ShmFound(a.Contents(), ctx.shm, o)
    modifies l, ctx`attached, ctx`graphGuard, a.subs, a.services, a.clients, a.guards
    ensures l.Valid() && l.live == old(l.live)
    ensures ctx.attached == old(ctx.attached) && ctx.graphGuard == old(ctx.graphGuard)
    ensures ret == WaitResult(old(a.Contents()), ctx.attached, ctx.triggers, ctx.shm, Normal, o).ret
    ensures a.Contents() == if ret == Ok then ShmResult(old(a.Contents()), ctx.shm).view else old(a.Contents())
    ensures ret == Ok ==> forall i :: 0 <= i < a.subs.Length ==>
              a.subs[i] == if ShmReady(old(a.subs[..])[i], ctx.shm) then old(a.subs[..])[i] else None
  {
    var calls;
    ret, calls := Wait(ctx, l, a, Normal, o);
    assert calls == NO_CALLS;
  }

  /** The shared-memory shortcut disturbs no later wait: such a wait is followed by one on the
      same entities, once the data is taken. The second does what it would have done on the
      original context if the first had never happened. */
  method ShmThenWait(ctx: Context, l: Ledger, a: Arrays, o: Oracle, o': Oracle)
    returns (first: Ret, second: Ret, calls: Calls)
    requires l.Valid() && a.Valid() && ShmFound(a.Contents(), ctx.shm, o)
    modifies l, ctx`attached, ctx`graphGuard, ctx`shm, a.subs, a.services, a.clients, a.guards
    ensures l.Valid() && l.live == old(l.live) && ctx.attached == old(ctx.attached)
    ensures first == WaitResult(old(a.Contents()), old(ctx.attached), old(ctx.triggers), old(ctx.shm), Normal, o).ret
    ensures Did(second, a, ctx, WaitResult(old(a.Contents()), old(ctx.attached), old(ctx.triggers), {}, Normal, o'))
    ensures CallsMatch(calls, second == Ok, old(a.Contents()), o')
  {
    var v := View(a.subs[..], a.services[..], a.clients[..], a.guards[..]);
    first := ShmWait(ctx, l, a, o);
    RefillAll(a, v);
    ctx.shm := {};
    NoShm(v, o');
    second, calls := Wait(ctx, l, a, Normal, o');
  }

  lemma NoShm(v: View, o: Oracle)
    ensures !ShmFound(v, {}, o)
  {
    ShmFoundIff(v, {}, o);
  }
}
