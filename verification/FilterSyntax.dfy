/** The text of a content filter: `field op %n`, read with a cursor that skips blanks. */
module FilterSyntax {
  import opened Common

  datatype Op = Eq | Neq | Lt | Lte | Gt | Gte

  // ------------------------------------------------------------- characters

  /** `isspace` and `isalnum` of the C locale. */
  predicate IsSpace(c: char) { c == ' ' || 9 <= c as int <= 13 }

  predicate IsDigit(c: char) { '0' <= c <= '9' }

  predicate IsIdentChar(c: char) { IsDigit(c) || 'a' <= c <= 'z' || 'A' <= c <= 'Z' || c == '_' }

  predicate Blank(s: string) { s == "" || (IsSpace(s[0]) && Blank(s[1..])) }

  predicate Word(s: string) { s == "" || (IsIdentChar(s[0]) && Word(s[1..])) }

  predicate Number(s: string) { s == "" || (IsDigit(s[0]) && Number(s[1..])) }

  // ---------------------------------------------------------------- cursors

  /** How many leading characters of a class a text has: where the cursor stops. */
  function Spaces(s: string): (n: nat)
    ensures n <= |s| && Blank(s[..n]) && (n < |s| ==> !IsSpace(s[n]))
  {
    if s == "" || !IsSpace(s[0]) then 0 else
      var n := Spaces(s[1..]) + 1;
      assert s[..n][1..] == s[1..][..n - 1];
      n
  }

  function Idents(s: string): (n: nat)
    ensures n <= |s| && Word(s[..n]) && (n < |s| ==> !IsIdentChar(s[n]))
  {
    if s == "" || !IsIdentChar(s[0]) then 0 else
      var n := Idents(s[1..]) + 1;
      assert s[..n][1..] == s[1..][..n - 1];
      n
  }

  function Digits(s: string): (n: nat)
    ensures n <= |s| && Number(s[..n]) && (n < |s| ==> !IsDigit(s[n]))
  {
    if s == "" || !IsDigit(s[0]) then 0 else
      var n := Digits(s[1..]) + 1;
      assert s[..n][1..] == s[1..][..n - 1];
      n
  }

  function SkipWs(s: string): string { s[Spaces(s)..] }

  function ValueFrom(acc: nat, digits: string): nat
    requires Number(digits)
    decreases digits
  {
    if digits == "" then acc else ValueFrom(acc * 10 + (digits[0] as int - '0' as int), digits[1..])
  }

  function Value(digits: string): nat
    requires Number(digits)
  {
    ValueFrom(0, digits)
  }

  /** What `strtoul` makes of a sign and a magnitude: negation wraps around. */
  function Signed(negative: bool, m: nat): nat
    requires m <= UINT64_MAX
  {
    if negative && m > 0 then UINT64_MAX + 1 - m else m
  }

  function SignLength(t: string): nat {
    if t != "" && (t[0] == '+' || t[0] == '-') then 1 else 0
  }

  /** `strtoul(s, &end, 10)`: the number and the rest of the text; None when there is no
      digit or the magnitude is out of range. */
  function ReadIndex(s: string): Option<(nat, string)> {
    var t := SkipWs(s);
    var u := t[SignLength(t)..];
    var n := Digits(u);
    if n == 0 || Value(u[..n]) > UINT64_MAX then None
    else Some((Signed(t[0] == '-', Value(u[..n])), u[n..]))
  }

  /** The operator at the front of a text, and its length. */
  function ReadOp(s: string): Option<(Op, nat)> {
    if s == "" then None
    else if s[0] == '=' then Some((Eq, if |s| > 1 && s[1] == '=' then 2 else 1))
    else if |s| > 1 && s[0] == '!' && s[1] == '=' then Some((Neq, 2))
    else if |s| > 1 && s[0] == '>' && s[1] == '=' then Some((Gte, 2))
    else if |s| > 1 && s[0] == '<' && s[1] == '=' then Some((Lte, 2))
    else if s[0] == '>' then Some((Gt, 1))
    else if s[0] == '<' then Some((Lt, 1))
    else None
  }

  datatype Clause = Clause(field: string, op: Op, index: nat)

  /** The part after the operator: `%`, an index, and nothing but blanks. */
  function ReadParameter(s: string): Option<nat> {
    var s1 := SkipWs(s);
    if s1 == "" || s1[0] != '%' then None else
      match ReadIndex(s1[1..])
      case None => None
      case Some((index, rest)) => if SkipWs(rest) == "" then Some(index) else None
  }

  /** The part after the field name. */
  function ReadTail(s: string): Option<(Op, nat)> {
    var s1 := SkipWs(s);
    match ReadOp(s1)
    case None => None
    case Some((op, n)) =>
      match ReadParameter(s1[n..])
      case None => None
      case Some(index) => Some((op, index))
  }

  function ReadField(s: string): string {
    var s0 := SkipWs(s);
    s0[..Idents(s0)]
  }

  function AfterField(s: string): string {
    var s0 := SkipWs(s);
    s0[Idents(s0)..]
  }

  /** The clause a text spells, whatever the message type. */
  function Read(s: string): Option<Clause> {
    if ReadField(s) == "" then None else
      match ReadTail(AfterField(s))
      case None => None
      case Some((op, index)) => Some(Clause(ReadField(s), op, index))
  }

  // --------------------------------------------------------------- the grammar

  predicate Spells(o: string, op: Op) {
    match op
    case Eq => o == "==" || o == "="
    case Neq => o == "!="
    case Lt => o == "<"
    case Lte => o == "<="
    case Gt => o == ">"
    case Gte => o == ">="
  }

  /** A numeral `blanks sign digits` and the index it stands for. */
  predicate Numeral(w: string, sign: string, digits: string, index: nat) {
    && Blank(w) && (sign == "" || sign == "+" || sign == "-")
    && digits != "" && Number(digits) && Value(digits) <= UINT64_MAX
    && index == Signed(sign == "-", Value(digits))
  }

  /** The pieces of a clause: blanks are allowed between any two, and at both ends. */
  datatype Pieces = Pieces(w0: string, field: string, w1: string, o: string, w2: string,
                           w3: string, sign: string, digits: string, w4: string)
  {
    function Parameter(): string { w2 + ("%" + (w3 + (sign + (digits + w4)))) }

    function Tail(): string { w1 + (o + Parameter()) }

    function Text(): string { w0 + (field + Tail()) }

    predicate Mean(c: Clause) {
      && Blank(w0) && Blank(w1) && Blank(w2) && Blank(w4)
      && field != "" && Word(field) && field == c.field
      && Spells(o, c.op) && Numeral(w3, sign, digits, c.index)
    }
  }

  // ------------------------------------------------------- reading what is written

  lemma {:induction false} SpacesOf(w: string, s: string)
    requires Blank(w) && (s == "" || !IsSpace(s[0]))
    ensures Spaces(w + s) == |w| && SkipWs(w + s) == s
  {
    if w == "" {
      assert w + s == s;
    } else {
      assert (w + s)[1..] == w[1..] + s;
      SpacesOf(w[1..], s);
    }
  }

  lemma {:induction false} IdentsOf(f: string, s: string)
    requires Word(f) && (s == "" || !IsIdentChar(s[0]))
    ensures Idents(f + s) == |f| && (f + s)[..|f|] == f && (f + s)[|f|..] == s
  {
    if f == "" {
      assert f + s == s;
    } else {
      assert (f + s)[1..] == f[1..] + s;
      IdentsOf(f[1..], s);
    }
  }

  lemma {:induction false} DigitsOf(d: string, s: string)
    requires Number(d) && (s == "" || !IsDigit(s[0]))
    ensures Digits(d + s) == |d| && (d + s)[..|d|] == d && (d + s)[|d|..] == s
  {
    if d == "" {
      assert d + s == s;
    } else {
      assert (d + s)[1..] == d[1..] + s;
      DigitsOf(d[1..], s);
    }
  }

  lemma ReadIndexOf(w: string, sign: string, digits: string, index: nat, s: string)
    requires Numeral(w, sign, digits, index) && (s == "" || !IsDigit(s[0]))
    ensures ReadIndex(w + (sign + (digits + s))) == Some((index, s))
  {
    SpacesOf(w, sign + (digits + s));
    DigitsOf(digits, s);
    if sign == "" {
      assert sign + (digits + s) == digits + s;
      assert (digits + s)[0] == digits[0];
    } else {
      assert (sign + (digits + s))[1..] == digits + s;
    }
  }

  lemma ReadOpOf(o: string, op: Op, s: string)
    requires Spells(o, op) && (s == "" || s[0] != '=')
    ensures ReadOp(o + s) == Some((op, |o|)) && (o + s)[|o|..] == s
  {
    assert (o + s)[0] == o[0];
    assert |o| == 2 ==> (o + s)[1] == o[1];
    assert |o| == 1 && s != "" ==> (o + s)[1] == s[0];
  }

  lemma ReadParameterOf(w: string, number: string, rest: string, index: nat)
    requires Blank(w) && Blank(rest) && ReadIndex(number) == Some((index, rest))
    ensures ReadParameter(w + ("%" + number)) == Some(index)
  {
    SpacesOf(rest, "");
    assert rest + "" == rest;
    assert ("%" + number)[1..] == number;
    SpacesOf(w, "%" + number);
  }

  lemma SkipToOp(w: string, o: string, op: Op, q: string)
    requires Blank(w) && Spells(o, op) && (q == "" || q[0] != '=')
    ensures SkipWs(w + (o + q)) == o + q && ReadOp(o + q) == Some((op, |o|)) && (o + q)[|o|..] == q
  {
    ReadOpOf(o, op, q);
    assert (o + q)[0] == o[0];
    SpacesOf(w, o + q);
  }

  lemma ReadTailParts(s: string, s1: string, op: Op, n: nat, q: string, index: nat)
    requires SkipWs(s) == s1 && ReadOp(s1) == Some((op, n)) && n <= |s1| && s1[n..] == q
    requires ReadParameter(q) == Some(index)
    ensures ReadTail(s) == Some((op, index))
  {
  }

  lemma ParameterStart(p: Pieces)
    requires Blank(p.w2)
    ensures p.Parameter() != "" && p.Parameter()[0] != '='
  {
    assert p.Parameter()[0] == if p.w2 == "" then '%' else p.w2[0];
  }

  lemma ReadParameterOfPieces(p: Pieces, c: Clause)
    requires p.Mean(c)
    ensures ReadParameter(p.Parameter()) == Some(c.index)
  {
    ReadIndexOf(p.w3, p.sign, p.digits, c.index, p.w4);
    ReadParameterOf(p.w2, p.w3 + (p.sign + (p.digits + p.w4)), p.w4, c.index);
  }

  lemma ReadTailOf(p: Pieces, c: Clause)
    requires p.Mean(c)
    ensures ReadTail(p.Tail()) == Some((c.op, c.index))
  {
    var q := p.Parameter();
    ReadParameterOfPieces(p, c);
    ParameterStart(p);
    SkipToOp(p.w1, p.o, c.op, q);
    ReadTailParts(p.Tail(), p.o + q, c.op, |p.o|, q, c.index);
  }

  /** Reading gives back what was written, with blanks anywhere and either spelling of `==`. */
  lemma ReadOf(p: Pieces, c: Clause)
    requires p.Mean(c)
    ensures Read(p.Text()) == Some(c)
  {
    var tail := p.Tail();
    assert tail != "" && !IsIdentChar(tail[0]) by {
      if p.w1 == "" { assert tail[0] == p.o[0]; } else { assert tail[0] == p.w1[0]; }
    }
    assert (p.field + tail)[0] == p.field[0];
    SpacesOf(p.w0, p.field + tail);
    IdentsOf(p.field, tail);
    ReadTailOf(p, c);
  }

  // ------------------------------------------------------- writing what was read

  lemma Split(s: string, n: nat)
    requires n <= |s|
    ensures s[..n] + s[n..] == s
  {
  }

  /** Every text that reads as a number starts with a numeral for it. */
  lemma ReadIndexSplits(s: string) returns (w: string, sign: string, digits: string)
    requires ReadIndex(s).Some?
    ensures Numeral(w, sign, digits, ReadIndex(s).value.0)
    ensures s == w + (sign + (digits + ReadIndex(s).value.1))
  {
    w := s[..Spaces(s)];
    var t := SkipWs(s);
    var k := SignLength(t);
    var u := t[k..];
    var n := Digits(u);
    sign, digits := t[..k], u[..n];
    Split(s, Spaces(s));
    Split(t, k);
    Split(u, n);
    assert k == 1 ==> sign == [t[0]];
    assert k == 0 ==> sign == "" && t[0] != '-';
    assert digits != "";
  }

  lemma ReadOpSplits(s: string)
    requires ReadOp(s).Some?
    ensures var (op, n) := ReadOp(s).value; n <= |s| && Spells(s[..n], op) && s == s[..n] + s[n..]
  {
    var (op, n) := ReadOp(s).value;
    assert n == 1 ==> s[..1] == [s[0]];
    assert n == 2 ==> s[..2] == [s[0], s[1]];
  }

  lemma AllBlank(s: string)
    requires SkipWs(s) == ""
    ensures Blank(s)
  {
    assert s[..Spaces(s)] == s;
  }

  lemma SkipWsSplits(s: string) returns (w: string, s1: string)
    ensures s == w + s1 && Blank(w) && s1 == SkipWs(s)
  {
    w, s1 := s[..Spaces(s)], s[Spaces(s)..];
  }

  lemma ReadParameterUnfolds(s: string, s1: string, r: Option<(nat, string)>)
    requires SkipWs(s) == s1 && ReadParameter(s).Some? && s1 != "" && r == ReadIndex(s1[1..])
    ensures s1[0] == '%' && r.Some? && r.value.0 == ReadParameter(s).value && SkipWs(r.value.1) == ""
  {
  }

  lemma Uncons(s: string)
    requires s != ""
    ensures s == [s[0]] + s[1..]
  {
  }

  lemma ReadParameterParts(s: string, s1: string) returns (number: string, rest: string)
    requires SkipWs(s) == s1 && ReadParameter(s).Some?
    ensures s1 == "%" + number && Blank(rest)
    ensures ReadIndex(number) == Some((ReadParameter(s).value, rest))
  {
    number := s1[1..];
    var r := ReadIndex(number);
    ReadParameterUnfolds(s, s1, r);
    Uncons(s1);
    rest := r.value.1;
    AllBlank(rest);
  }

  lemma ReadParameterSplits(s: string) returns (w: string, number: string, rest: string)
    requires ReadParameter(s).Some?
    ensures s == w + ("%" + number) && Blank(w) && Blank(rest)
    ensures ReadIndex(number) == Some((ReadParameter(s).value, rest))
  {
    var s1;
    w, s1 := SkipWsSplits(s);
    number, rest := ReadParameterParts(s, s1);
  }

  lemma ReadTailSplits(s: string) returns (p: Pieces)
    requires ReadTail(s).Some?
    ensures p.Tail() == s && Blank(p.w1) && Blank(p.w2) && Blank(p.w4)
    ensures Spells(p.o, ReadTail(s).value.0) && Numeral(p.w3, p.sign, p.digits, ReadTail(s).value.1)
  {
    var s1 := SkipWs(s);
    ReadOpSplits(s1);
    var n := ReadOp(s1).value.1;
    var w2, number, w4 := ReadParameterSplits(s1[n..]);
    var w3, sign, digits := ReadIndexSplits(number);
    p := Pieces("", "", s[..Spaces(s)], s1[..n], w2, w3, sign, digits, w4);
    Split(s, Spaces(s));
  }

  /** The parser accepts exactly the grammar: a text reads as a clause if and only if it is
      written as field, operator, `%` and numeral with blanks between. */
  lemma ReadIff(s: string, c: Clause)
    ensures Read(s) == Some(c) <==> exists p: Pieces :: p.Text() == s && p.Mean(c)
  {
    if Read(s) == Some(c) {
      var s0 := SkipWs(s);
      var tail := ReadTailSplits(AfterField(s));
      var p := tail.(w0 := s[..Spaces(s)], field := ReadField(s));
      Split(s, Spaces(s));
      Split(s0, Idents(s0));
      assert p.Text() == s && p.Mean(c);
    }
    if p: Pieces :| p.Text() == s && p.Mean(c) {
      ReadOf(p, c);
    }
  }

  // -------------------------------------------------------------- the cursors

  /** `rmw_hdds_skip_ws`: the position of the first character that is not a blank. */
  method SkipBlanks(s: string, from: nat) returns (cursor: nat)
    requires from <= |s|
    ensures cursor == from + Spaces(s[from..])
  {
    cursor := from;
    while cursor < |s| && IsSpace(s[cursor])
      invariant from <= cursor <= |s|
      invariant from + Spaces(s[from..]) == cursor + Spaces(s[cursor..])
    {
      assert s[cursor..][1..] == s[cursor + 1..];
      cursor := cursor + 1;
    }
  }

  method SkipIdent(s: string, from: nat) returns (cursor: nat)
    requires from <= |s|
    ensures cursor == from + Idents(s[from..])
  {
    cursor := from;
    while cursor < |s| && IsIdentChar(s[cursor])
      invariant from <= cursor <= |s|
      invariant from + Idents(s[from..]) == cursor + Idents(s[cursor..])
    {
      assert s[cursor..][1..] == s[cursor + 1..];
      cursor := cursor + 1;
    }
  }
}
