/** Durations: seconds and nanoseconds against one 64-bit count of nanoseconds. */
module Durations {
  import opened Common

  const NS_PER_SEC := 1_000_000_000

  datatype Time = Time(sec: nat, nsec: nat) {
    /** What the two 64-bit fields can hold. */
    predicate Representable() { sec <= UINT64_MAX && nsec <= UINT64_MAX }

    predicate Normal() { nsec < NS_PER_SEC }

    function Total(): nat { sec * NS_PER_SEC + nsec }
  }

  const UNSPECIFIED := Time(0, 0)
  const INFINITE := Time(9223372036, 854775807)

  /** `rmw_time_to_ns`: the largest 64-bit count that the duration reaches, where the infinite
      constant reaches every count. */
  method ToNs(t: Time) returns (ns: nat)
    requires t.Representable()
    ensures ns == ClampedNs(t) <= UINT64_MAX
    ensures forall n: nat :: n <= UINT64_MAX ==> (n <= ns <==> Reaches(t, n))
  {
    if t == UNSPECIFIED { return 0; }
    if t == INFINITE { return UINT64_MAX; }
    if t.sec > UINT64_MAX / NS_PER_SEC { return UINT64_MAX; }
    var base := t.sec * NS_PER_SEC;
    assert base <= UINT64_MAX;            // the product fits 64 bits
    if UINT64_MAX - base < t.nsec { return UINT64_MAX; }
    ns := base + t.nsec;
  }

  /** The exact total, clamped to 64 bits; only the infinite constant is read as more. */
  function ClampedNs(t: Time): nat {
    if t == INFINITE || t.Total() > UINT64_MAX then UINT64_MAX else t.Total()
  }

  /** The duration is at least n nanoseconds; the infinite constant is at least any number. */
  predicate Reaches(t: Time, n: nat) { t == INFINITE || n <= t.Total() }

  /** One law for the exact total, the clamping and the infinite constant: the count of a time
      is at least n exactly when its duration is, or it is infinite. */
  lemma ReachesIff(t: Time, n: nat)
    requires n <= UINT64_MAX
    ensures n <= ClampedNs(t) <==> Reaches(t, n)
  {
  }

  /** `rmw_time_from_ns_u64`. */
  function FromNs(ns: nat): Time { Time(ns / NS_PER_SEC, ns % NS_PER_SEC) }

  lemma FromNsTotal(ns: nat)
    ensures FromNs(ns).Normal() && FromNs(ns).Total() == ns
  {
  }

  lemma NormalUnique(t: Time, u: Time)
    requires t.Normal() && u.Normal() && t.Total() == u.Total()
    ensures t == u
  {
  }

  /** Counting back gives every number again, except the one whose time means infinity. */
  lemma CountRoundTrip(ns: nat)
    requires ns <= UINT64_MAX
    ensures ClampedNs(FromNs(ns)) == ns <==> ns != INT64_MAX
  {
    FromNsTotal(ns);
    FromNsTotal(INT64_MAX);
    assert INFINITE.Total() == INT64_MAX;
    if FromNs(ns) == INFINITE { assert ns == INT64_MAX; }
    if ns == INT64_MAX { NormalUnique(FromNs(ns), INFINITE); }
  }

  /** And a time survives exactly when it is normal, fits, and is not the infinite constant. */
  lemma TimeRoundTrip(t: Time)
    requires t.Representable()
    ensures FromNs(ClampedNs(t)) == t <==> t.Normal() && t.Total() <= UINT64_MAX && t != INFINITE
  {
    FromNsTotal(ClampedNs(t));
    if t.Normal() && t.Total() <= UINT64_MAX && t != INFINITE { NormalUnique(FromNs(t.Total()), t); }
  }

  /** `hdds_time_less` compares field by field. */
  predicate Less(l: Time, r: Time) { l.sec < r.sec || (l.sec == r.sec && l.nsec < r.nsec) }

  /** The two orders agree on a pair. */
  predicate Agree(l: Time, r: Time) { Less(l, r) <==> l.Total() < r.Total() }

  /** They do exactly when the nanoseconds of the side with fewer seconds do not make up for
      its seconds. */
  lemma AgreeIff(l: Time, r: Time)
    ensures Agree(l, r) <==>
            && (l.sec < r.sec ==> l.nsec < r.nsec + (r.sec - l.sec) * NS_PER_SEC)
            && (r.sec < l.sec ==> r.nsec <= l.nsec + (l.sec - r.sec) * NS_PER_SEC)
  {
    assert r.Total() - l.Total() == (r.sec - l.sec) * NS_PER_SEC + r.nsec - l.nsec;
  }

  /** On normal times they always agree, and so does the order of the counts unless one is
      clamped or infinite. */
  lemma NormalAgree(l: Time, r: Time)
    requires l.Normal() && r.Normal()
    ensures Agree(l, r)
    ensures l != INFINITE && r != INFINITE && l.Total() <= UINT64_MAX && r.Total() <= UINT64_MAX ==>
              (Less(l, r) <==> ClampedNs(l) < ClampedNs(r))
  {
  }

  /** Being normal is the exact condition on one side: a time is ordered like its duration
      against every normal time if and only if it is normal, or has the last second there is. */
  lemma LessIsShorterIff(l: Time)
    requires l.Representable()
    ensures (forall r: Time :: r.Normal() && r.Representable() ==> Agree(l, r)) <==>
            l.Normal() || l.sec == UINT64_MAX
  {
    if l.Normal() || l.sec == UINT64_MAX {
      forall r: Time | r.Normal() && r.Representable() ensures Agree(l, r) {}
    } else {
      var r := Time(l.sec + 1, 0);
      assert r.Normal() && r.Representable() && !Agree(l, r);
    }
  }
}
