/** A ledger of live resources, against which leaks and double releases show. */
module Resources {
  import opened Common

  /** An attachment carries the id of its reader, a registration the id of its endpoint. */
  datatype Kind = Memory | Qos | Writer | Reader | Attachment | Registration

  datatype Resource = Resource(kind: Kind, id: nat)

  function Held(r: Option<Resource>): set<Resource> {
    match r case None => {} case Some(x) => {x}
  }

  /** Every resource that is alive. Ids are never reused, so a stale release is visible. */
  class Ledger {
    var live: set<Resource>
    var next: nat

    ghost predicate Valid() reads this { forall r :: r in live ==> r.id < next }

    constructor ()
      ensures Valid() && live == {}
    {
      live, next := {}, 0;
    }

    /** An allocation or native create call, which may fail and then gives NULL. */
    method Acquire(kind: Kind, ok: bool) returns (r: Option<Resource>)
      requires Valid()
      modifies this
      ensures Valid() && live == old(live) + Held(r)
      ensures if ok then r == Some(Resource(kind, old(next))) && next == old(next) + 1
              else r == None && next == old(next)
    {
      r := None;
      if ok {
        r := Some(Resource(kind, next));
        live, next := live + {Resource(kind, next)}, next + 1;
      }
    }

    /** Attach a live reader, or register a live endpoint. */
    method Tie(kind: Kind, to: Resource)
      requires Valid() && to in live
      modifies this
      ensures Valid() && next == old(next) && live == old(live) + {Resource(kind, to.id)}
    {
      live := live + {Resource(kind, to.id)};
    }

    /** Releasing needs a live resource, so nothing is released twice; NULL is ignored. */
    method Release(r: Option<Resource>)
      requires Valid() && Held(r) <= live
      modifies this
      ensures Valid() && next == old(next) && live == old(live) - Held(r)
    {
      if r.Some? { live := live - {r.value}; }
    }

    /** `destroy_reader` detaches the reader first when it is attached. */
    method DestroyReader(reader: Resource)
      requires Valid() && reader in live
      modifies this
      ensures Valid() && next == old(next)
      ensures live == old(live) - {reader, Resource(Attachment, reader.id)}
    {
      live := live - {Resource(Attachment, reader.id)};
      live := live - {reader};
    }
  }
}
