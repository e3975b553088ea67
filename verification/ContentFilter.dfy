/** Content filters of a subscription: parsing an expression against a message type, and
    the state that `rmw_subscription_set_content_filter` leaves. */
module ContentFilter {
  import opened Common
  import opened FilterSyntax
  import opened FilterValues

  /** A member of the message type; its name may be missing. */
  datatype Member = Member(name: Option<string>, isArray: bool, offset: nat, typ: Type)

  datatype Filter = Filter(op: Op, index: nat, offset: nat, typ: Type, value: Value)

  datatype Result = Accepted(filter: Filter) | Refused(ret: Ret)

  /** The first member with the name. */
  function Find(members: seq<Member>, name: string): (m: Option<Member>)
    ensures m.Some? ==> m.value in members && m.value.name == Some(name)
    ensures m.None? ==> forall x :: x in members ==> x.name != Some(name)
  {
    if members == [] then None
    else if members[0].name == Some(name) then Some(members[0])
    else Find(members[1..], name)
  }

  /** It is the first: no member before it has the name. */
  lemma {:induction false} FoundIsFirst(members: seq<Member>, name: string) returns (i: nat)
    requires Find(members, name).Some?
    ensures i < |members| && members[i] == Find(members, name).value
    ensures forall j :: 0 <= j < i ==> members[j].name != Some(name)
  {
    if members[0].name == Some(name) {
      i := 0;
    } else {
      i := FoundIsFirst(members[1..], name);
      assert forall j :: 0 < j <= i ==> members[j] == members[1..][j - 1];
      i := i + 1;
    }
  }

  /** The last step of parsing: the parameter, and the operators a text allows. */
  function Check(m: Member, op: Op, index: nat, params: seq<string>, strtod: string -> Option<real>): Result {
    if index >= |params| then Refused(InvalidArgument) else
      match ParseParameter(m.typ, params[index], strtod)
      case Rejected(ret) => Refused(ret)
      case Parsed(v) =>
        if m.typ == Text && op != Eq && op != Neq then Refused(Unsupported)
        else Accepted(Filter(op, index, m.offset, m.typ, v))
  }

  /** What an expression means for a message type. The member is looked up before the rest
      of the text is read, so an unknown or array member decides the error. */
  function Parse(members: seq<Member>, e: string, params: seq<string>, strtod: string -> Option<real>): Result {
    var field := ReadField(e);
    if field == "" then Refused(InvalidArgument) else
      match Find(members, field)
      case None => Refused(InvalidArgument)
      case Some(m) =>
        if m.isArray then Refused(Unsupported) else
          match ReadTail(AfterField(e))
          case None => Refused(InvalidArgument)
          case Some((op, index)) => Check(m, op, index, params, strtod)
  }

  /** An expression is accepted exactly when it is written in the grammar, names a member
      that is no array, points at a parameter of the member's type, and compares texts only
      for equality; and the filter then says just that. */
  lemma AcceptedIff(members: seq<Member>, e: string, params: seq<string>, strtod: string -> Option<real>, f: Filter)
    ensures Parse(members, e, params, strtod) == Accepted(f) <==>
            exists p: Pieces, c: Clause :: p.Text() == e && p.Mean(c) && Asks(members, c, params, strtod, f)
  {
    ParseIsAsks(members, e, params, strtod, f);
    if Parse(members, e, params, strtod) == Accepted(f) {
      var c := Read(e).value;
      ReadIff(e, c);
      var p: Pieces :| p.Text() == e && p.Mean(c);
    }
    if p: Pieces, c: Clause :| p.Text() == e && p.Mean(c) && Asks(members, c, params, strtod, f) {
      ReadOf(p, c);
    }
  }

  lemma ParseIsAsks(members: seq<Member>, e: string, params: seq<string>, strtod: string -> Option<real>, f: Filter)
    ensures Parse(members, e, params, strtod) == Accepted(f) <==>
            Read(e).Some? && Asks(members, Read(e).value, params, strtod, f)
  {
    ReadParts(e);
    var m, tail := Find(members, ReadField(e)), ReadTail(AfterField(e));
    if ReadField(e) != "" && m.Some? && tail.Some? {
      CheckIff(m.value, tail.value.0, tail.value.1, params, strtod, f);
    }
  }

  predicate Asks(members: seq<Member>, c: Clause, params: seq<string>, strtod: string -> Option<real>, f: Filter) {
    && Find(members, c.field).Some?
    && var m := Find(members, c.field).value;
    !m.isArray && Wants(m, c.op, c.index, params, strtod, f)
  }

  /** The filter compares the member with the value that the parameter has in its type; texts
      are compared for equality only. */
  predicate Wants(m: Member, op: Op, index: nat, params: seq<string>, strtod: string -> Option<real>, f: Filter) {
    && index < |params|
    && ParseParameter(m.typ, params[index], strtod) == Parsed(f.value)
    && (m.typ == Text ==> op == Eq || op == Neq)
    && f == Filter(op, index, m.offset, m.typ, f.value)
  }

  lemma CheckIff(m: Member, op: Op, index: nat, params: seq<string>, strtod: string -> Option<real>, f: Filter)
    ensures Check(m, op, index, params, strtod) == Accepted(f) <==> Wants(m, op, index, params, strtod, f)
  {
  }

  lemma ReadParts(e: string)
    ensures ReadField(e) == "" ==> Read(e) == None
    ensures ReadTail(AfterField(e)).None? ==> Read(e) == None
    ensures ReadField(e) != "" && ReadTail(AfterField(e)).Some? ==>
              Read(e) == Some(Clause(ReadField(e), ReadTail(AfterField(e)).value.0, ReadTail(AfterField(e)).value.1))
  {
  }

  lemma AcceptedChecks(members: seq<Member>, e: string, params: seq<string>, strtod: string -> Option<real>, f: Filter)
    returns (m: Member)
    requires Parse(members, e, params, strtod) == Accepted(f)
    ensures Check(m, f.op, f.index, params, strtod) == Accepted(f)
  {
    m := Find(members, ReadField(e)).value;
  }

  lemma CheckedFits(m: Member, params: seq<string>, strtod: string -> Option<real>, f: Filter)
    requires Check(m, f.op, f.index, params, strtod) == Accepted(f)
    ensures f.index < |params| && ParseParameter(f.typ, params[f.index], strtod) == Parsed(f.value)
    ensures Fits(f.typ, f.value) && (f.value.TextValue? ==> f.value.s in params)
  {
    ParsedFits(f.typ, params[f.index], strtod);
  }

  /** A filter that was accepted does what it says on every message of the type: it passes
      exactly when the comparison with its parameter is true. */
  lemma AcceptedMeans(members: seq<Member>, e: string, params: seq<string>, strtod: string -> Option<real>,
                      f: Filter, field: Field)
    requires Parse(members, e, params, strtod) == Accepted(f) && HasType(field, f.typ)
    requires forall p :: p in params ==> '\0' !in p
    ensures f.index < |params| && ParseParameter(f.typ, params[f.index], strtod) == Parsed(f.value)
    ensures Matches(f.typ, f.op, f.value, field) <==> Meaning(f.op, f.value, field)
  {
    var m := AcceptedChecks(members, e, params, strtod, f);
    CheckedFits(m, params, strtod, f);
    MatchesIsMeaning(f.typ, f.op, f.value, field);
  }

  /** The same from the characters: an accepted expression `field op %n` passes exactly the
      messages of which its operator and its n-th parameter, as they are written, are true. */
  lemma WrittenMeans(members: seq<Member>, p: Pieces, c: Clause, params: seq<string>, strtod: string -> Option<real>,
                     f: Filter, field: Field)
    requires p.Mean(c) && Asks(members, c, params, strtod, f) && HasType(field, f.typ)
    requires '\0' !in params[c.index]
    ensures Matches(f.typ, f.op, f.value, field) <==> SaysText(p.o, f.typ, params[c.index], field, strtod)
  {
    ParsedFits(f.typ, params[c.index], strtod);
    MatchesIsMeaning(f.typ, f.op, f.value, field);
    MeaningIsText(p.o, c.op, f.typ, f.value, params[c.index], field, strtod);
  }

  /** Flags, spelled out: `==` a true text passes the true flags, and so on. */
  lemma FlagMeans(members: seq<Member>, p: Pieces, c: Clause, params: seq<string>, strtod: string -> Option<real>,
                  f: Filter, flag: bool, wanted: bool)
    requires p.Mean(c) && Asks(members, c, params, strtod, f) && f.typ == Boolean && BoolText(params[c.index], wanted)
    ensures p.o == "=" || p.o == "==" ==> (Matches(Boolean, f.op, f.value, BoolField(flag)) <==> flag == wanted)
    ensures p.o == "!=" ==> (Matches(Boolean, f.op, f.value, BoolField(flag)) <==> flag != wanted)
  {
    BooleanIff(params[c.index], strtod, wanted);
    ParsedFits(Boolean, params[c.index], strtod);
    MatchesIsMeaning(Boolean, f.op, f.value, BoolField(flag));
    BooleanSays(p.o, c.op, f.value, params[c.index], BoolField(flag), strtod);
    BooleanIff(params[c.index], strtod, !wanted);
  }

  /** A type that no filter looks at, or a text compared by order. */
  predicate NotComparable(t: Type, op: Op) { t == Other || (t == Text && op != Eq && op != Neq) }

  lemma CheckRefusedIs(m: Member, op: Op, index: nat, params: seq<string>, strtod: string -> Option<real>)
    requires Check(m, op, index, params, strtod).Refused?
    ensures Check(m, op, index, params, strtod).ret ==
            if index < |params| && NotComparable(m.typ, op) then Unsupported else InvalidArgument
  {
    if index < |params| && ParseParameter(m.typ, params[index], strtod).Rejected? {
      RejectedIs(m.typ, params[index], strtod);
    }
  }

  /** A refusal says that the request is unsupported exactly when the named member is an array,
      or the expression is well formed and points at a parameter but its comparison does not
      exist for the member's type; all other refusals are invalid arguments. */
  lemma RefusedIs(members: seq<Member>, e: string, params: seq<string>, strtod: string -> Option<real>)
    requires Parse(members, e, params, strtod).Refused?
    ensures var m, read := Find(members, ReadField(e)), Read(e);
            Parse(members, e, params, strtod).ret ==
            if ReadField(e) != "" && m.Some?
               && (m.value.isArray
                   || (read.Some? && read.value.index < |params| && NotComparable(m.value.typ, read.value.op)))
            then Unsupported else InvalidArgument
  {
    var m, tail := Find(members, ReadField(e)), ReadTail(AfterField(e));
    if ReadField(e) != "" && m.Some? && !m.value.isArray && tail.Some? {
      CheckRefusedIs(m.value, tail.value.0, tail.value.1, params, strtod);
    }
  }

  // --------------------------------------------------------------- the parser

  method FindMember(members: seq<Member>, name: string) returns (m: Option<Member>)
    ensures m == Find(members, name)
  {
    for i := 0 to |members|
      invariant Find(members, name) == Find(members[i..], name)
    {
      assert members[i..][1..] == members[i + 1..];
      if members[i].name == Some(name) { return Some(members[i]); }
    }
    return None;
  }

  /** `rmw_hdds_parse_content_filter_expression`, with a cursor into the text. */
  method ParseExpression(members: seq<Member>, e: string, params: seq<string>, strtod: string -> Option<real>)
    returns (r: Result)
    ensures r == Parse(members, e, params, strtod)
  {
    var start := SkipBlanks(e, 0);
    assert e[0..] == e;
    if start == |e| { return Refused(InvalidArgument); }
    var cursor := SkipIdent(e, start);
    if cursor == start { return Refused(InvalidArgument); }
    assert e[start..cursor] == ReadField(e) && e[cursor..] == AfterField(e);
    var m := FindMember(members, e[start..cursor]);
    if m.None? { return Refused(InvalidArgument); }
    if m.value.isArray { return Refused(Unsupported); }
    var tail := ParseTail(e, cursor);
    if tail.None? { return Refused(InvalidArgument); }
    r := Check(m.value, tail.value.0, tail.value.1, params, strtod);
  }

  method ParseTail(e: string, from: nat) returns (t: Option<(Op, nat)>)
    requires from <= |e|
    ensures t == ReadTail(e[from..])
  {
    var cursor := SkipBlanks(e, from);
    assert e[cursor..] == SkipWs(e[from..]);
    if cursor == |e| { return None; }
    var op := ReadOp(e[cursor..]);
    if op.None? { return None; }
    assert e[cursor..][op.value.1..] == e[cursor + op.value.1..];
    var index := ParsePercent(e, cursor + op.value.1);
    if index.None? { return None; }
    t := Some((op.value.0, index.value));
  }

  method ParsePercent(e: string, from: nat) returns (index: Option<nat>)
    requires from <= |e|
    ensures index == ReadParameter(e[from..])
  {
    var cursor := SkipBlanks(e, from);
    assert e[cursor..] == SkipWs(e[from..]);
    if cursor == |e| || e[cursor] != '%' { return None; }
    assert e[cursor..][1..] == e[cursor + 1..];
    var number := ReadIndex(e[cursor + 1..]);
    if number.None? { return None; }
    var blank := OnlyBlanks(number.value.1);
    index := if blank then Some(number.value.0) else None;
  }

  method OnlyBlanks(s: string) returns (blank: bool)
    ensures blank <==> SkipWs(s) == ""
  {
    var end := SkipBlanks(s, 0);
    assert s[0..] == s;
    blank := end == |s|;
  }

  // ------------------------------------------------------------ subscriptions

  /** What a caller asks for: an expression and its parameters, some of which may be NULL. */
  datatype Options = Options(expression: Option<string>, params: seq<Option<string>>)

  /** The three copies that may fail to be allocated, by position. */
  datatype Copies = Copies(expression: bool, list: bool, params: set<nat>)

  /** The filter state of a subscription. */
  datatype State = State(expression: string, params: seq<string>, filter: Option<Filter>)

  const OFF := State("", [], None)

  function Texts(params: seq<Option<string>>): seq<string>
    requires forall i :: 0 <= i < |params| ==> params[i].Some?
  {
    seq(|params|, i requires 0 <= i < |params| => params[i].value)
  }

  /** The first parameter that is NULL or cannot be copied decides the error. */
  function CopyError(params: seq<Option<string>>, fails: set<nat>): Ret {
    if params == [] then Ok else
      var last := |params| - 1;
      var before := CopyError(params[..last], fails);
      if before != Ok then before
      else if params[last].None? then InvalidArgument
      else if last in fails then BadAlloc
      else Ok
  }

  lemma {:induction false} CopyOk(params: seq<Option<string>>, fails: set<nat>)
    requires CopyError(params, fails) == Ok
    ensures forall i :: 0 <= i < |params| ==> params[i].Some?
  {
    if params != [] { CopyOk(params[..|params| - 1], fails); }
  }

  /** The first parameter that cannot be copied, and the status that reports it. */
  ghost predicate Stuck(params: seq<Option<string>>, fails: set<nat>, i: nat, ret: Ret) {
    && i < |params| && (forall j: nat :: j < i ==> params[j].Some? && j !in fails)
    && (params[i].None? || i in fails) && ret == if params[i].None? then InvalidArgument else BadAlloc
  }

  /** Copying succeeds exactly when no parameter is NULL and every copy is allocated; otherwise
      the first of them that is not decides the status. */
  lemma {:induction false} CopyErrorIs(params: seq<Option<string>>, fails: set<nat>)
    ensures CopyError(params, fails) == Ok <==> forall i: nat :: i < |params| ==> params[i].Some? && i !in fails
    ensures CopyError(params, fails) != Ok ==> exists i :: Stuck(params, fails, i, CopyError(params, fails))
  {
    if params != [] {
      var front := params[..|params| - 1];
      CopyErrorIs(front, fails);
      if CopyError(front, fails) != Ok {
        var i :| Stuck(front, fails, i, CopyError(front, fails));
        assert Stuck(params, fails, i, CopyError(params, fails));
      } else {
        assert forall j: nat :: j < |front| ==> front[j] == params[j];
        if CopyError(params, fails) != Ok { assert Stuck(params, fails, |front|, CopyError(params, fails)); }
      }
    }
  }

  lemma {:induction false} CopyStops(params: seq<Option<string>>, fails: set<nat>, i: nat)
    requires i <= |params| && CopyError(params[..i], fails) != Ok
    ensures CopyError(params, fails) == CopyError(params[..i], fails)
    decreases |params|
  {
    if i < |params| {
      assert params[..|params| - 1][..i] == params[..i];
      CopyStops(params[..|params| - 1], fails, i);
    } else {
      assert params[..i] == params;
    }
  }

  method CopyParams(params: seq<Option<string>>, fails: set<nat>) returns (ret: Ret, copies: seq<string>)
    ensures ret == CopyError(params, fails)
    ensures ret == Ok ==> (forall i :: 0 <= i < |params| ==> params[i].Some?) && copies == Texts(params)
  {
    copies := [];
    for i := 0 to |params|
      invariant CopyError(params[..i], fails) == Ok && |copies| == i
      invariant forall k :: 0 <= k < i ==> params[k] == Some(copies[k])
    {
      assert params[..i + 1][..i] == params[..i];
      if params[i].None? {
        CopyStops(params, fails, i + 1);
        return InvalidArgument, [];
      }
      if i in fails {
        CopyStops(params, fails, i + 1);
        return BadAlloc, [];
      }
      copies := copies + [params[i].value];
    }
    assert params[..|params|] == params;
    CopyOk(params, fails);
    ret := Ok;
  }

  /** What a call that passes its argument checks returns, and the state it leaves. It does
      not depend on the state before. */
  function Setting(members: Option<seq<Member>>, e: string, params: seq<Option<string>>, c: Copies,
                   strtod: string -> Option<real>): (Ret, State)
  {
    if e == "" && params == [] then (Ok, OFF)
    else if members.None? then (Unsupported, OFF)
    else if !c.expression || (params != [] && !c.list) then (BadAlloc, OFF)
    else if CopyError(params, c.params) != Ok then (CopyError(params, c.params), OFF)
    else
      CopyOk(params, c.params);
      match Parse(members.value, e, Texts(params), strtod)
      case Refused(ret) => (ret, OFF)
      case Accepted(f) => (Ok, State(e, Texts(params), Some(f)))
  }

  /** Nothing is NULL and every copy that is made is allocated. */
  ghost predicate AllCopied(params: seq<Option<string>>, c: Copies) {
    && c.expression && (params != [] ==> c.list)
    && forall i: nat :: i < |params| ==> params[i].Some? && i !in c.params
  }

  /** A call installs a filter: the message type is known, there is something to set, all of it
      is copied, and the filter is what the expression, as it is written, asks for. */
  ghost predicate Installs(members: Option<seq<Member>>, e: string, params: seq<Option<string>>, c: Copies,
                           strtod: string -> Option<real>, f: Filter)
  {
    && members.Some? && AllCopied(params, c) && !(e == "" && params == [])
    && exists p: Pieces, cl: Clause :: p.Text() == e && p.Mean(cl) && Asks(members.value, cl, Texts(params), strtod, f)
  }

  /** What a call leaves: exactly the filter that it installs with its texts, or nothing. */
  lemma InstalledIff(members: Option<seq<Member>>, e: string, params: seq<Option<string>>, c: Copies,
                     strtod: string -> Option<real>, f: Filter)
    ensures Setting(members, e, params, c, strtod).1.filter == Some(f) <==> Installs(members, e, params, c, strtod, f)
    ensures Installs(members, e, params, c, strtod, f) ==>
              Setting(members, e, params, c, strtod) == (Ok, State(e, Texts(params), Some(f)))
  {
    CopyErrorIs(params, c.params);
    if AllCopied(params, c) && members.Some? { AcceptedIff(members.value, e, Texts(params), strtod, f); }
  }

  lemma SettingShape(members: Option<seq<Member>>, e: string, params: seq<Option<string>>, c: Copies,
                     strtod: string -> Option<real>)
    ensures var (ret, st) := Setting(members, e, params, c, strtod);
            && (ret == Ok <==> (e == "" && params == []) || st.filter.Some?)
            && (st.filter.None? ==> st == State("", [], None))
  {
    if members.Some? && CopyError(params, c.params) == Ok {
      CopyOk(params, c.params);
      if Parse(members.value, e, Texts(params), strtod).Refused? {
        RefusedIs(members.value, e, Texts(params), strtod);
      }
    }
  }

  lemma InstalledAll(members: Option<seq<Member>>, e: string, params: seq<Option<string>>, c: Copies,
                     strtod: string -> Option<real>)
    ensures forall f :: Setting(members, e, params, c, strtod).1.filter == Some(f) <==>
                        Installs(members, e, params, c, strtod, f)
  {
    forall f
      ensures Setting(members, e, params, c, strtod).1.filter == Some(f) <==>
              Installs(members, e, params, c, strtod, f)
    {
      InstalledIff(members, e, params, c, strtod, f);
    }
  }

  /** The effect of a call, from its arguments: the filter it installs, with its texts and
      success, or else nothing, and success only when there was nothing to set. */
  ghost predicate Effect(members: Option<seq<Member>>, e: string, params: seq<Option<string>>, c: Copies,
                         strtod: string -> Option<real>, ret: Ret, st: State)
  {
    && (forall f :: st.filter == Some(f) <==> Installs(members, e, params, c, strtod, f))
    && (st.filter.Some? ==> ret == Ok && AllCopied(params, c) && st.expression == e && st.params == Texts(params))
    && (st.filter.None? ==> st == State("", [], None) && (ret == Ok <==> e == "" && params == []))
  }

  lemma SettingEffect(members: Option<seq<Member>>, e: string, params: seq<Option<string>>, c: Copies,
                      strtod: string -> Option<real>)
    ensures var (ret, st) := Setting(members, e, params, c, strtod); Effect(members, e, params, c, strtod, ret, st)
  {
    InstalledAll(members, e, params, c, strtod);
    SettingShape(members, e, params, c, strtod);
    var st := Setting(members, e, params, c, strtod).1;
    if st.filter.Some? { InstalledIff(members, e, params, c, strtod, st.filter.value); }
  }

  class Subscription {
    const members: Option<seq<Member>>
    var state: State
    var enabled: bool

    /** Disabled and empty, or enabled with the filter that the stored texts spell. */
    ghost predicate Valid(strtod: string -> Option<real>)
      reads this
    {
      if enabled then
        members.Some? && state.filter.Some?
        && Parse(members.value, state.expression, state.params, strtod) == Accepted(state.filter.value)
      else state == OFF
    }

    constructor (members: Option<seq<Member>>)
      ensures this.members == members && state == OFF && !enabled
    {
      this.members, state, enabled := members, OFF, false;
    }

    /** `rmw_subscription_set_content_filter`: past its argument check every call forgets the
        old filter, and keeps a new one only when all of it could be set up. */
    method SetContentFilter(options: Options, c: Copies, strtod: string -> Option<real>) returns (ret: Ret)
      requires Valid(strtod)
      modifies this
      ensures Valid(strtod)
      ensures options.expression.None? ==> ret == InvalidArgument && state == old(state) && enabled == old(enabled)
      ensures options.expression.Some? ==>
                var (r, s) := Setting(members, options.expression.value, options.params, c, strtod);
                ret == r && state == s && enabled == s.filter.Some?
      ensures options.expression.Some? ==>
                && Effect(members, options.expression.value, options.params, c, strtod, ret, state)
                && (enabled <==> state.filter.Some?)
    {
      if options.expression.None? { return InvalidArgument; }
      var e := options.expression.value;
      SettingEffect(members, e, options.params, c, strtod);
      state, enabled := OFF, false;
      if e == "" && options.params == [] { return Ok; }
      if members.None? { return Unsupported; }
      if !c.expression { return BadAlloc; }
      if options.params != [] && !c.list { return BadAlloc; }
      var copied, params := CopyParams(options.params, c.params);
      if copied != Ok { return copied; }
      var parsed := ParseExpression(members.value, e, params, strtod);
      if parsed.Refused? { return parsed.ret; }
      state, enabled := State(e, params, Some(parsed.filter)), true;
      ret := Ok;
    }
  }

  // -------------------------------------------------------------------- runs

  datatype Call = Call(options: Options, copies: Copies)

  /** The state after a sequence of calls on a new subscription. */
  function After(members: Option<seq<Member>>, calls: seq<Call>, strtod: string -> Option<real>): State {
    if calls == [] then OFF else
      var c := calls[|calls| - 1];
      if c.options.expression.None? then After(members, calls[..|calls| - 1], strtod)
      else Setting(members, c.options.expression.value, c.options.params, c.copies, strtod).1
  }

  /** Only the last call that got past its argument check counts. */
  lemma {:induction false} LastCallDecides(members: Option<seq<Member>>, calls: seq<Call>, k: nat,
                                           strtod: string -> Option<real>)
    requires k < |calls| && calls[k].options.expression.Some?
    requires forall i :: k < i < |calls| ==> calls[i].options.expression.None?
    ensures After(members, calls, strtod) ==
            Setting(members, calls[k].options.expression.value, calls[k].options.params, calls[k].copies, strtod).1
  {
    if k < |calls| - 1 { LastCallDecides(members, calls[..|calls| - 1], k, strtod); }
  }

  /** Without any such call there is no filter. */
  lemma {:induction false} NothingSet(members: Option<seq<Member>>, calls: seq<Call>, strtod: string -> Option<real>)
    ensures (forall i :: 0 <= i < |calls| ==> calls[i].options.expression.None?) ==>
              After(members, calls, strtod) == State("", [], None)
  {
    if calls != [] { NothingSet(members, calls[..|calls| - 1], strtod); }
  }

  lemma {:induction false} ReachableIsParsed(members: Option<seq<Member>>, calls: seq<Call>,
                                             strtod: string -> Option<real>)
    ensures var st := After(members, calls, strtod);
            if st.filter.None? then st == OFF
            else members.Some? && Parse(members.value, st.expression, st.params, strtod) == Accepted(st.filter.value)
  {
    if calls != [] && calls[|calls| - 1].options.expression.None? {
      ReachableIsParsed(members, calls[..|calls| - 1], strtod);
    }
  }

  /** In every reachable state an enabled filter has a value of its member's kind, a text
      value is one of the parameters the subscription owns, and evaluation is comparison. */
  lemma ReachableMeans(members: Option<seq<Member>>, calls: seq<Call>, strtod: string -> Option<real>, field: Field)
    requires After(members, calls, strtod).filter.Some?
    requires forall p :: p in After(members, calls, strtod).params ==> '\0' !in p
    requires HasType(field, After(members, calls, strtod).filter.value.typ)
    ensures var st := After(members, calls, strtod);
            var f := st.filter.value;
            && Fits(f.typ, f.value) && (f.value.TextValue? ==> f.value.s in st.params)
            && (Matches(f.typ, f.op, f.value, field) <==> Meaning(f.op, f.value, field))
  {
    ReachableIsParsed(members, calls, strtod);
    var st := After(members, calls, strtod);
    var f := st.filter.value;
    var m := AcceptedChecks(members.value, st.expression, st.params, strtod, f);
    CheckedFits(m, st.params, strtod, f);
    MatchesIsMeaning(f.typ, f.op, f.value, field);
  }
}
