/** `rmw_qos_profile_check_compatible`: what a publisher offers against what a subscription
    requests, policy by policy, and the reasons it writes down. */
module QosCompat {
  import opened Common
  import opened Durations

  /** A two-valued policy: strong is reliable, transient local or manual by topic; weak is
      best effort, volatile or automatic; system default and unknown are unspecified. */
  datatype Level = Weak | Unspecified | Strong | OtherLevel

  datatype Profile = Profile(
    reliability: Level, durability: Level, liveliness: Level,
    deadline: Time, lifespan: Time, lease: Time)

  datatype Verdict = Fine | Warning | Fatal {
    function Rank(): nat { match this case Fine => 0 case Warning => 1 case Fatal => 2 }
  }

  function Worse(a: Verdict, b: Verdict): Verdict { if a.Rank() >= b.Rank() then a else b }

  // ------------------------------------------------------ one policy at a time

  function LevelVerdict(offered: Level, requested: Level): Verdict {
    if offered == Weak && requested == Strong then Fatal
    else if offered == Unspecified && (requested == Unspecified || requested == Strong) then Warning
    else if offered == Weak && requested == Unspecified then Warning
    else Fine
  }

  /** Deadlines and leases: no time at all is the longest time. */
  predicate Exceeds(offered: Time, requested: Time) {
    if offered == UNSPECIFIED then requested != UNSPECIFIED
    else requested != UNSPECIFIED && Less(requested, offered)
  }

  function TimeVerdict(offered: Time, requested: Time): Verdict {
    if Exceeds(offered, requested) then Fatal else Fine
  }

  function LifespanVerdict(offered: Time, requested: Time): Verdict {
    if (offered == UNSPECIFIED) != (requested == UNSPECIFIED) || Exceeds(offered, requested) then Warning else Fine
  }

  /** The verdict of a pair is the worst of its six policies. */
  function Judge(p: Profile, s: Profile): Verdict {
    Worse(LevelVerdict(p.reliability, s.reliability),
    Worse(LevelVerdict(p.durability, s.durability),
    Worse(TimeVerdict(p.deadline, s.deadline),
    Worse(LifespanVerdict(p.lifespan, s.lifespan),
    Worse(LevelVerdict(p.liveliness, s.liveliness), TimeVerdict(p.lease, s.lease))))))
  }

  datatype Policy = Reliability | Durability | Deadline | Lifespan | Liveliness | Lease

  function PolicyVerdict(p: Profile, s: Profile, policy: Policy): Verdict {
    match policy
    case Reliability => LevelVerdict(p.reliability, s.reliability)
    case Durability => LevelVerdict(p.durability, s.durability)
    case Deadline => TimeVerdict(p.deadline, s.deadline)
    case Lifespan => LifespanVerdict(p.lifespan, s.lifespan)
    case Liveliness => LevelVerdict(p.liveliness, s.liveliness)
    case Lease => TimeVerdict(p.lease, s.lease)
  }

  lemma JudgeIsWorst(p: Profile, s: Profile)
    ensures forall policy :: PolicyVerdict(p, s, policy).Rank() <= Judge(p, s).Rank()
    ensures exists policy :: PolicyVerdict(p, s, policy) == Judge(p, s)
  {
    var j := Judge(p, s);
    if PolicyVerdict(p, s, Reliability) == j {
    } else if PolicyVerdict(p, s, Durability) == j {
    } else if PolicyVerdict(p, s, Deadline) == j {
    } else if PolicyVerdict(p, s, Lifespan) == j {
    } else if PolicyVerdict(p, s, Liveliness) == j {
    } else {
      assert PolicyVerdict(p, s, Lease) == j;
    }
  }

  // ----------------------------------------------------------------- reasons

  /** What fits a buffer of `size` characters with its terminator. */
  function Cut(t: string, size: nat): string {
    if size == 0 then "" else if |t| < size then t else t[..size - 1]
  }

  function Texts(noted: seq<Policy>, text: Policy -> string): string {
    if noted == [] then "" else Texts(noted[..|noted| - 1], text) + text(noted[|noted| - 1])
  }

  lemma CutAppend(a: string, b: string, size: nat)
    ensures Cut(Cut(a, size) + b, size) == Cut(a + b, size)
  {
    if size > 0 && |a| >= size {
      assert (a[..size - 1] + b)[..size - 1] == a[..size - 1];
      assert (a + b)[..size - 1] == a[..size - 1];
    }
  }

  /** The verdict so far, what was noted for it, and the text of that. */
  datatype Finding = Finding(v: Verdict, noted: seq<Policy>, reason: string) {
    ghost predicate Written(size: nat, text: Policy -> string) { reason == Cut(Texts(noted, text), size) }
  }

  /** One complaint: the verdict is set and `append_to_reason` writes as much as fits. */
  method NoteIf(complaint: bool, f: Finding, v: Verdict, policy: Policy, size: nat, text: Policy -> string)
    returns (f': Finding)
    requires f.Written(size, text)
    ensures f'.Written(size, text)
    ensures f'.v == if complaint then v else f.v
    ensures f'.noted == f.noted + If(complaint, policy)
  {
    f' := f;
    if complaint {
      var noted, t := f.noted + [policy], text(policy);
      assert noted[..|f.noted|] == f.noted;
      CutAppend(Texts(f.noted, text), t, size);
      var reason := f.reason;
      if size > 0 {
        var room := size - |f.reason| - 1;
        reason := f.reason + if |t| <= room then t else t[..room];
        assert reason == Cut(f.reason + t, size);
      }
      f' := Finding(v, noted, reason);
    }
  }

  function If(complaint: bool, policy: Policy): seq<Policy> { if complaint then [policy] else [] }

  predicate IsFatal(p: Profile, s: Profile, policy: Policy) { PolicyVerdict(p, s, policy) == Fatal }

  predicate IsWarned(p: Profile, s: Profile, policy: Policy) { PolicyVerdict(p, s, policy) == Warning }

  /** Something is fatal before lifespans are looked at, or after. */
  predicate Early(p: Profile, s: Profile) {
    IsFatal(p, s, Reliability) || IsFatal(p, s, Durability) || IsFatal(p, s, Deadline)
  }

  predicate Late(p: Profile, s: Profile) { IsFatal(p, s, Liveliness) || IsFatal(p, s, Lease) }

  /** The firm complaints; lifespans only count while nothing is fatal. */
  function Firm(p: Profile, s: Profile): seq<Policy> {
    If(IsFatal(p, s, Reliability), Reliability) + If(IsFatal(p, s, Durability), Durability)
    + If(IsFatal(p, s, Deadline), Deadline) + If(!Early(p, s) && IsWarned(p, s, Lifespan), Lifespan)
    + If(IsFatal(p, s, Liveliness), Liveliness) + If(IsFatal(p, s, Lease), Lease)
  }

  /** The complaints about policies left unspecified. */
  function Vague(p: Profile, s: Profile): seq<Policy> {
    If(IsWarned(p, s, Reliability), Reliability) + If(IsWarned(p, s, Durability), Durability)
    + If(IsWarned(p, s, Liveliness), Liveliness)
  }

  /** All that is noted: vagueness only when there is nothing else. */
  function Noted(p: Profile, s: Profile): seq<Policy> {
    if Firm(p, s) == [] then Vague(p, s) else Firm(p, s)
  }

  /** What is noted has a complaint, every fatal policy is noted, and unless all is fine
      some noted policy has the verdict of the whole. */
  lemma NotedExplains(p: Profile, s: Profile)
    ensures forall policy :: policy in Noted(p, s) ==> PolicyVerdict(p, s, policy) != Fine
    ensures forall policy :: PolicyVerdict(p, s, policy) == Fatal ==> policy in Noted(p, s)
    ensures Judge(p, s) == Fine <==> Noted(p, s) == []
    ensures Judge(p, s) == Warning ==> forall policy :: policy in Noted(p, s) ==> IsWarned(p, s, policy)
  {
    JudgeIsWorst(p, s);
  }

  function FirmVerdict(p: Profile, s: Profile): Verdict {
    if Early(p, s) || Late(p, s) then Fatal else if IsWarned(p, s, Lifespan) then Warning else Fine
  }

  lemma JudgeFromFirm(p: Profile, s: Profile)
    ensures FirmVerdict(p, s) == Fine <==> Firm(p, s) == []
    ensures Judge(p, s) == if FirmVerdict(p, s) != Fine then FirmVerdict(p, s)
                           else if Vague(p, s) != [] then Warning else Fine
  {
    JudgeIsWorst(p, s);
  }

  method CheckFirm(p: Profile, s: Profile, size: nat, text: Policy -> string) returns (f: Finding)
    ensures f.Written(size, text) && f.noted == Firm(p, s) && f.v == FirmVerdict(p, s)
  {
    f := Finding(Fine, [], "");
    f := NoteIf(IsFatal(p, s, Reliability), f, Fatal, Reliability, size, text);
    f := NoteIf(IsFatal(p, s, Durability), f, Fatal, Durability, size, text);
    f := NoteIf(IsFatal(p, s, Deadline), f, Fatal, Deadline, size, text);
    f := NoteIf(f.v != Fatal && IsWarned(p, s, Lifespan), f, Warning, Lifespan, size, text);
    f := NoteIf(IsFatal(p, s, Liveliness), f, Fatal, Liveliness, size, text);
    f := NoteIf(IsFatal(p, s, Lease), f, Fatal, Lease, size, text);
  }

  /** `rmw_qos_profile_check_compatible`. The reason is the texts of the noted policies, one
      after the other, cut to the buffer. */
  method Check(p: Profile, s: Profile, size: nat, text: Policy -> string) returns (f: Finding)
    ensures f.v == Judge(p, s)
    ensures f.noted == Noted(p, s) && f.reason == Cut(Texts(f.noted, text), size)
  {
    f := CheckFirm(p, s, size, text);
    JudgeFromFirm(p, s);
    if f.v == Fine {
      f := NoteIf(IsWarned(p, s, Reliability), f, Warning, Reliability, size, text);
      f := NoteIf(IsWarned(p, s, Durability), f, Warning, Durability, size, text);
      f := NoteIf(IsWarned(p, s, Liveliness), f, Warning, Liveliness, size, text);
    }
  }

  // ------------------------------------------------------------ monotonicity

  /** `b` offers at least what `a` does; a level that is neither asks and risks nothing. */
  predicate OffersNoLess(a: Level, b: Level) {
    a == b || b == Strong || b == OtherLevel || (a == Weak && b == Unspecified)
  }

  predicate RequestsNoMore(a: Level, b: Level) {
    a == b || b == Weak || b == OtherLevel || (a == Strong && b == Unspecified)
  }

  /** The order of durations in which no duration at all is the longest. */
  predicate NoLonger(a: Time, b: Time) { a == b || b == UNSPECIFIED || (a != UNSPECIFIED && Less(a, b)) }

  lemma ExceedsIff(offered: Time, requested: Time)
    ensures Exceeds(offered, requested) <==> !NoLonger(offered, requested)
  {
  }

  lemma NoLongerTransitive(a: Time, b: Time, c: Time)
    requires NoLonger(a, b) && NoLonger(b, c)
    ensures NoLonger(a, c)
  {
  }

  /** `p'` offers at least what `p` does; lifespans are free. */
  predicate Better(p: Profile, p': Profile) {
    && OffersNoLess(p.reliability, p'.reliability) && OffersNoLess(p.durability, p'.durability)
    && OffersNoLess(p.liveliness, p'.liveliness)
    && NoLonger(p'.deadline, p.deadline) && NoLonger(p'.lease, p.lease)
  }

  /** `s'` requests at most what `s` does; lifespans are free. */
  predicate Milder(s: Profile, s': Profile) {
    && RequestsNoMore(s.reliability, s'.reliability) && RequestsNoMore(s.durability, s'.durability)
    && RequestsNoMore(s.liveliness, s'.liveliness)
    && NoLonger(s.deadline, s'.deadline) && NoLonger(s.lease, s'.lease)
  }

  lemma LevelMonotone(o: Level, o': Level, r: Level, r': Level)
    requires OffersNoLess(o, o') && RequestsNoMore(r, r')
    ensures LevelVerdict(o', r').Rank() <= LevelVerdict(o, r).Rank()
  {
  }

  lemma TimeMonotone(o: Time, o': Time, r: Time, r': Time)
    requires NoLonger(o', o) && NoLonger(r, r')
    ensures TimeVerdict(o', r').Rank() <= TimeVerdict(o, r).Rank()
  {
    ExceedsIff(o, r);
    ExceedsIff(o', r');
    if NoLonger(o, r) {
      NoLongerTransitive(o', o, r);
      NoLongerTransitive(o', r, r');
    }
  }

  /** Lifespans fit when neither side has one, or both do and the requested one is no shorter. */
  predicate LifespansFit(offered: Time, requested: Time) {
    if offered == UNSPECIFIED || requested == UNSPECIFIED then offered == requested else !Less(requested, offered)
  }

  lemma LifespansFitIff(offered: Time, requested: Time)
    ensures LifespanVerdict(offered, requested) == Fine <==> LifespansFit(offered, requested)
  {
  }

  /** The five policies that are ordered, apart from lifespans. */
  function Ordered(p: Profile, s: Profile): Verdict {
    Worse(LevelVerdict(p.reliability, s.reliability),
    Worse(LevelVerdict(p.durability, s.durability),
    Worse(TimeVerdict(p.deadline, s.deadline),
    Worse(LevelVerdict(p.liveliness, s.liveliness), TimeVerdict(p.lease, s.lease)))))
  }

  lemma JudgeSplits(p: Profile, s: Profile)
    ensures Judge(p, s) == Worse(Ordered(p, s), LifespanVerdict(p.lifespan, s.lifespan))
  {
  }

  lemma OrderedMonotone(p: Profile, p': Profile, s: Profile, s': Profile)
    requires Better(p, p') && Milder(s, s')
    ensures Ordered(p', s').Rank() <= Ordered(p, s).Rank()
  {
    LevelMonotone(p.reliability, p'.reliability, s.reliability, s'.reliability);
    LevelMonotone(p.durability, p'.durability, s.durability, s'.durability);
    LevelMonotone(p.liveliness, p'.liveliness, s.liveliness, s'.liveliness);
    TimeMonotone(p.deadline, p'.deadline, s.deadline, s'.deadline);
    TimeMonotone(p.lease, p'.lease, s.lease, s'.lease);
  }

  /** For all profiles, whatever the lifespans: offering more or requesting less never turns a
      pair that is not fatal into one that is. */
  lemma NeverTurnsFatal(p: Profile, p': Profile, s: Profile, s': Profile)
    requires Better(p, p') && Milder(s, s') && Judge(p, s) != Fatal
    ensures Judge(p', s') != Fatal
  {
    JudgeSplits(p, s);
    JudgeSplits(p', s');
    OrderedMonotone(p, p', s, s');
  }

  /** It can bring a warning, but only through lifespans: the verdict gets no worse if and only
      if it was not fine before or the new lifespans fit each other. */
  lemma NoWorseIff(p: Profile, p': Profile, s: Profile, s': Profile)
    requires Better(p, p') && Milder(s, s')
    ensures Judge(p', s').Rank() <= Judge(p, s).Rank() <==>
            Judge(p, s) != Fine || LifespansFit(p'.lifespan, s'.lifespan)
  {
    JudgeSplits(p, s);
    JudgeSplits(p', s');
    OrderedMonotone(p, p', s, s');
    LifespansFitIff(p'.lifespan, s'.lifespan);
  }

  /** For lifespans alone: exactly the pairs that fit are as good as any, whatever the rest. */
  lemma LifespanChangeIff(t: Time, t': Time)
    ensures (forall p: Profile, s: Profile ::
               Judge(p.(lifespan := t), s.(lifespan := t')).Rank() <= Judge(p, s).Rank()) <==> LifespansFit(t, t')
  {
    LifespansFitIff(t, t');
    if LifespansFit(t, t') {
      forall p: Profile, s: Profile
        ensures Judge(p.(lifespan := t), s.(lifespan := t')).Rank() <= Judge(p, s).Rank()
      {
        JudgeSplits(p, s);
        JudgeSplits(p.(lifespan := t), s.(lifespan := t'));
      }
    } else {
      var plain := Profile(Strong, Strong, Strong, UNSPECIFIED, UNSPECIFIED, UNSPECIFIED);
      assert Judge(plain, plain) == Fine;
      assert Judge(plain.(lifespan := t), plain.(lifespan := t')) != Fine;
    }
  }

  // --------------------------------------------------------- in terms of fields

  /** Less is offered than is requested. */
  predicate TooWeak(offered: Level, requested: Level) { offered == Weak && requested == Strong }

  /** What is offered or requested is left open, so that it may turn out to be too weak. */
  predicate Open(offered: Level, requested: Level) {
    || (offered == Unspecified && requested == Unspecified)
    || (offered == Unspecified && requested == Strong)
    || (offered == Weak && requested == Unspecified)
  }

  predicate Incompatible(p: Profile, s: Profile) {
    || TooWeak(p.reliability, s.reliability) || TooWeak(p.durability, s.durability)
    || TooWeak(p.liveliness, s.liveliness)
    || !NoLonger(p.deadline, s.deadline) || !NoLonger(p.lease, s.lease)
  }

  predicate Doubtful(p: Profile, s: Profile) {
    || !LifespansFit(p.lifespan, s.lifespan)
    || Open(p.reliability, s.reliability) || Open(p.durability, s.durability) || Open(p.liveliness, s.liveliness)
  }

  /** The verdict over the fields of the two profiles: an error exactly when some policy is
      offered weaker than requested or some duration longer, a warning exactly when not so but
      something is left open or lifespans do not fit. */
  lemma JudgeIff(p: Profile, s: Profile)
    ensures Judge(p, s) == Fatal <==> Incompatible(p, s)
    ensures Judge(p, s) == Warning <==> !Incompatible(p, s) && Doubtful(p, s)
  {
    JudgeSplits(p, s);
    LifespansFitIff(p.lifespan, s.lifespan);
    ExceedsIff(p.deadline, s.deadline);
    ExceedsIff(p.lease, s.lease);
  }

  /** The reason buffer holds the longest beginning of the full text that fits it with its
      terminator. */
  lemma CutIsPrefix(t: string, size: nat)
    ensures Cut(t, size) <= t
    ensures size > 0 ==> |Cut(t, size)| == if |t| < size then |t| else size - 1
    ensures size == 0 ==> Cut(t, size) == ""
  {
  }

  lemma InSix(a: seq<Policy>, b: seq<Policy>, c: seq<Policy>, d: seq<Policy>, e: seq<Policy>, f: seq<Policy>, x: Policy)
    ensures x in a + b + c + d + e + f <==> x in a || x in b || x in c || x in d || x in e || x in f
  {
  }

  lemma FirmIff(p: Profile, s: Profile, x: Policy)
    ensures x in Firm(p, s) <==> if x == Lifespan then !Early(p, s) && IsWarned(p, s, x) else IsFatal(p, s, x)
  {
    InSix(If(IsFatal(p, s, Reliability), Reliability), If(IsFatal(p, s, Durability), Durability),
          If(IsFatal(p, s, Deadline), Deadline), If(!Early(p, s) && IsWarned(p, s, Lifespan), Lifespan),
          If(IsFatal(p, s, Liveliness), Liveliness), If(IsFatal(p, s, Lease), Lease), x);
  }

  lemma VagueIff(p: Profile, s: Profile)
    ensures var vague := Vague(p, s);
            && (Reliability in vague <==> IsWarned(p, s, Reliability))
            && (Durability in vague <==> IsWarned(p, s, Durability))
            && (Liveliness in vague <==> IsWarned(p, s, Liveliness))
            && Deadline !in vague && Lifespan !in vague && Lease !in vague
  {
  }

  lemma LevelIff(offered: Level, requested: Level)
    ensures LevelVerdict(offered, requested) == Fatal <==> TooWeak(offered, requested)
    ensures LevelVerdict(offered, requested) == Warning <==> Open(offered, requested)
  {
  }

  lemma TimesIff(p: Profile, s: Profile)
    ensures IsFatal(p, s, Deadline) <==> !NoLonger(p.deadline, s.deadline)
    ensures IsFatal(p, s, Lease) <==> !NoLonger(p.lease, s.lease)
    ensures IsWarned(p, s, Lifespan) <==> !LifespansFit(p.lifespan, s.lifespan)
  {
    LifespansFitIff(p.lifespan, s.lifespan);
    ExceedsIff(p.deadline, s.deadline);
    ExceedsIff(p.lease, s.lease);
  }

  /** Nothing is incompatible, and lifespans fit. */
  predicate Quiet(p: Profile, s: Profile) { !Incompatible(p, s) && LifespansFit(p.lifespan, s.lifespan) }

  lemma QuietIff(p: Profile, s: Profile)
    ensures Quiet(p, s) <==> Firm(p, s) == []
  {
    TimesIff(p, s);
    LevelIff(p.reliability, s.reliability);
    LevelIff(p.durability, s.durability);
    LevelIff(p.liveliness, s.liveliness);
    JudgeFromFirm(p, s);
  }

  /** The times that are noted: those that are incompatible, and a lifespan that does not fit
      unless an incompatibility was found before it. */
  lemma TimesNotedIff(p: Profile, s: Profile)
    ensures Deadline in Noted(p, s) <==> !NoLonger(p.deadline, s.deadline)
    ensures Lease in Noted(p, s) <==> !NoLonger(p.lease, s.lease)
    ensures Lifespan in Noted(p, s) <==>
            && !LifespansFit(p.lifespan, s.lifespan) && NoLonger(p.deadline, s.deadline)
            && !TooWeak(p.reliability, s.reliability) && !TooWeak(p.durability, s.durability)
  {
    FirmIff(p, s, Deadline);
    FirmIff(p, s, Lease);
    FirmIff(p, s, Lifespan);
    VagueIff(p, s);
    QuietIff(p, s);
    TimesIff(p, s);
    LevelIff(p.reliability, s.reliability);
    LevelIff(p.durability, s.durability);
  }

  /** The levels that are noted: those offered too weak, and when nothing else is wrong, those
      left open. */
  lemma LevelsNotedIff(p: Profile, s: Profile)
    ensures Reliability in Noted(p, s) <==>
            TooWeak(p.reliability, s.reliability) || (Quiet(p, s) && Open(p.reliability, s.reliability))
    ensures Durability in Noted(p, s) <==>
            TooWeak(p.durability, s.durability) || (Quiet(p, s) && Open(p.durability, s.durability))
    ensures Liveliness in Noted(p, s) <==>
            TooWeak(p.liveliness, s.liveliness) || (Quiet(p, s) && Open(p.liveliness, s.liveliness))
  {
    FirmIff(p, s, Reliability);
    FirmIff(p, s, Durability);
    FirmIff(p, s, Liveliness);
    VagueIff(p, s);
    QuietIff(p, s);
    LevelIff(p.reliability, s.reliability);
    LevelIff(p.durability, s.durability);
    LevelIff(p.liveliness, s.liveliness);
  }
}
